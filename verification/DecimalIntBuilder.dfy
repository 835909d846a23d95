/** ObDecimalIntBuilder: a 64-byte buffer holding a decimal int of some byte width. */
module DecimalIntBuilders {
  import opened Arithmetic
  import opened TwosComplement

  const BUFFER_SIZE: nat := 64

  class DecimalIntBuilder {
    var intBytes: nat
    const buffer: array<byte>

    ghost predicate Valid()
      reads this
    {
      buffer.Length == BUFFER_SIZE && intBytes <= BUFFER_SIZE
    }

    /** The stored bytes, least significant first. */
    ghost function Bytes(): (bs: seq<byte>)
      requires Valid()
      reads this, buffer
      ensures |bs| == intBytes
    {
      buffer[..intBytes]
    }

    /** The signed integer the stored bytes denote. */
    ghost function Value(): int
      requires Valid() && intBytes > 0
      reads this, buffer
    {
      Signed(Bytes())
    }

    constructor ()
      ensures Valid() && intBytes == 0 && fresh(buffer)
    {
      intBytes := 0;
      buffer := new byte[BUFFER_SIZE](_ => 0);
    }

    /** from(decint, int_bytes): at most the buffer's size is taken. */
    method FromBytes(decint: seq<byte>)
      requires Valid()
      modifies this, buffer
      ensures Valid() && Bytes() == decint[..Min(BUFFER_SIZE, |decint|)]
    {
      intBytes := Min(BUFFER_SIZE, |decint|);
      forall i | 0 <= i < intBytes {
        buffer[i] := decint[i];
      }
    }

    /** from(v) for a value held in n bytes: its n low bytes are copied. */
    method FromValue(v: int, n: nat)
      requires Valid() && 0 < n <= BUFFER_SIZE
      modifies this, buffer
      ensures Valid() && intBytes == n && Bytes() == FromInt(v, n)
      ensures Value() == Wrap(v, n)
    {
      FromBytes(FromInt(v, n));
      SignedFromInt(v, n);
    }

    /** from(other). */
    method FromBuilder(other: DecimalIntBuilder)
      requires Valid() && other.Valid()
      modifies this, buffer
      ensures Valid() && Bytes() == old(other.Bytes())
    {
      var bytes := other.buffer[..other.intBytes];
      FromBytes(bytes);
    }

    method Truncate(expected: nat)
      requires Valid()
      modifies this
      ensures Valid()
      ensures Bytes() == if expected >= old(intBytes) then old(Bytes()) else old(Bytes())[..expected]
      ensures 0 < expected < old(intBytes) ==> Value() == Wrap(old(Value()), expected)
    {
      ghost var bytes := Bytes();
      if expected >= intBytes {
      } else {
        intBytes := expected;
        assert Bytes() == bytes[..expected];
        if 0 < expected {
          Truncation(bytes, expected);
        }
      }
    }

    method Extend(expected: nat)
      requires Valid() && expected <= BUFFER_SIZE
      modifies this, buffer
      ensures Valid() && intBytes == if expected > old(intBytes) then expected else old(intBytes)
      ensures Bytes()[..old(intBytes)] == old(Bytes())
      ensures old(intBytes) > 0 ==> Value() == old(Value())
    {
      ghost var bytes := Bytes();
      var isNeg := false;
      if intBytes > 0 {
        isNeg := buffer[intBytes - 1] >= 0x80;
      }
      var extending := expected - intBytes;
      if extending <= 0 {
      } else {
        var fill: byte := if isNeg then 0xFF else 0;
        forall i | intBytes <= i < expected {
          buffer[i] := fill;
        }
        ghost var was := intBytes;
        intBytes := expected;
        assert Bytes() == bytes + Repeat(fill, expected - was);
        if was > 0 {
          SignExtension(bytes, expected - was);
        }
      }
    }
  }
}
