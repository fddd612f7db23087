/** The reading side of a connection: the bytes that are still to arrive before it ends. */
module ByteReader {
  import opened Bytes

  /** How many bytes a read into a buffer of the given size brings: `choice` if the connection can
      deliver that many, otherwise the nearest number that it can. */
  function Delivered(size: nat, available: nat, choice: nat): (n: nat)
    ensures n <= size && n <= available && (size > 0 && available > 0 ==> n > 0)
  {
    var most := if size <= available then size else available;
    if choice > most then most else if choice == 0 && most > 0 then 1 else choice
  }

  /** A connection may deliver any number of bytes that fits, at least one if there is one. */
  lemma DeliveredAny(size: nat, available: nat, n: nat)
    requires n <= size && n <= available && (n == 0 ==> size == 0 || available == 0)
    ensures exists choice :: Delivered(size, available, choice) == n
  {
    assert Delivered(size, available, n) == n;
  }

  class Reader {
    var input: bytes

    constructor (input: bytes)
      ensures this.input == input
    {
      this.input := input;
    }

    /** `io.ReadFull`: all n bytes, or an error that has used up what was left. */
    method ReadFull(n: nat) returns (ok: bool, data: bytes)
      modifies this
      ensures ok == (n <= |old(input)|)
      ensures ok ==> data == old(input)[..n] && input == old(input)[n..]
      ensures !ok ==> input == []
    {
      ok := n <= |input|;
      if ok {
        data, input := input[..n], input[n..];
      } else {
        data, input := input, [];
      }
    }
  }
}
