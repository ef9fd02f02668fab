/**
 * The ways an operation of the node can abort.  Each stands for an
 * exception nothing catches or for undefined behaviour of the C++ code,
 * which the model reports instead of continuing.
 */
module Faults {
  import opened Bytes

  datatype Fault =
    | MalformedPacket
      // a packet buffer shorter than its header or than the size it declares
    | NegativeLength(count: int)
      // `std::string(p, n)` with n below zero, which throws length_error
    | MalformedBlock
      // a block buffer shorter than its header, its parents or its transactions
    | IndexOutOfRange(index: int)
      // `std::vector::operator[]` on an index outside the vector
    | BadRecord(record: Bytes)
      // `std::stoi` throwing on a reconciliation record
    | PaddingTooLong(length: nat)
      // `std::string(32 - n, c)` with n > 32, which throws length_error
    | BlockNotFound(hash: Bytes)
      // `Blockgraph::GetBlock` asked for a hash it does not hold
    | SubstrOutOfRange
      // `std::string::substr` from a position past the end
}
