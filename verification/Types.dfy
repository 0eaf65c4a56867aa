/** The wire values that the services exchange; epochs and slots, strings on the wire, are naturals here. */
module Types {

  type Host = string
  type Root = string

  datatype Checkpoint = Checkpoint(epoch: nat, root: Root)

  datatype AttestationData = AttestationData(
    slot: nat,
    index: nat,
    blockRoot: Root,
    source: Checkpoint,
    target: Checkpoint)
}
