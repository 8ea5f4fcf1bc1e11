/** Length framing: every entry is preceded by its length in eight bytes, most
    significant first, so a digested stream can be read back in one way only. */
module Framing {
  import opened Options

  type Byte = b: int | 0 <= b < 256

  const LENGTH_BYTES: nat := 8

  function Capacity(bytes: nat): nat {
    if bytes == 0 then 1 else 256 * Capacity(bytes - 1)
  }

  function BigEndian(n: nat, bytes: nat): (r: seq<Byte>)
    ensures |r| == bytes
  {
    if bytes == 0 then [] else BigEndian(n / 256, bytes - 1) + [n % 256]
  }

  function Value(bs: seq<Byte>): nat {
    if bs == [] then 0 else 256 * Value(bs[..|bs| - 1]) + bs[|bs| - 1]
  }

  lemma {:induction false} ValueOfBigEndian(n: nat, bytes: nat)
    requires n < Capacity(bytes)
    ensures Value(BigEndian(n, bytes)) == n
  {
    if bytes > 0 {
      ValueOfBigEndian(n / 256, bytes - 1);
      assert BigEndian(n, bytes)[..bytes - 1] == BigEndian(n / 256, bytes - 1);
    }
  }

  lemma {:induction false} BigEndianOfValue(bs: seq<Byte>)
    ensures Value(bs) < Capacity(|bs|) && BigEndian(Value(bs), |bs|) == bs
  {
    if bs != [] {
      var front, last := bs[..|bs| - 1], bs[|bs| - 1];
      BigEndianOfValue(front);
      assert Value(bs) / 256 == Value(front) && Value(bs) % 256 == last;
    }
  }

  predicate Fits(entry: seq<Byte>) {
    |entry| < Capacity(LENGTH_BYTES)
  }

  function Frame(entry: seq<Byte>): seq<Byte> {
    BigEndian(|entry|, LENGTH_BYTES) + entry
  }

  /** What has been digested after the entries, one frame after the other. */
  function Stream(entries: seq<seq<Byte>>): seq<Byte> {
    if entries == [] then [] else Stream(entries[..|entries| - 1]) + Frame(entries[|entries| - 1])
  }

  /** Reading a stream back, frame by frame. */
  function Unframe(stream: seq<Byte>): Option<seq<seq<Byte>>>
    decreases |stream|
  {
    if stream == [] then Some([])
    else if |stream| < LENGTH_BYTES then None
    else
      var end := LENGTH_BYTES + Value(stream[..LENGTH_BYTES]);
      if |stream| < end then None
      else match Unframe(stream[end..])
        case Some(rest) => Some([stream[LENGTH_BYTES..end]] + rest)
        case None => None
  }

  lemma {:induction false} StreamCons(entry: seq<Byte>, rest: seq<seq<Byte>>)
    ensures Stream([entry] + rest) == Frame(entry) + Stream(rest)
  {
    var all := [entry] + rest;
    if rest == [] {
      assert all[..0] == [];
    } else {
      var front, last := rest[..|rest| - 1], rest[|rest| - 1];
      StreamCons(entry, front);
      assert all[..|all| - 1] == [entry] + front;
      var a, b, c := Frame(entry), Stream(front), Frame(last);
      assert (a + b) + c == a + (b + c);
    }
  }

  lemma {:induction false} StreamReadsBack(entries: seq<seq<Byte>>)
    requires forall e | e in entries :: Fits(e)
    ensures Unframe(Stream(entries)) == Some(entries)
  {
    if entries != [] {
      var entry, rest := entries[0], entries[1..];
      assert entry in entries && entries == [entry] + rest;
      StreamCons(entry, rest);
      StreamReadsBack(rest);
      ValueOfBigEndian(|entry|, LENGTH_BYTES);
      var stream := Stream(entries);
      assert stream[..LENGTH_BYTES] == BigEndian(|entry|, LENGTH_BYTES);
      assert stream[LENGTH_BYTES..LENGTH_BYTES + |entry|] == entry;
      assert stream[LENGTH_BYTES + |entry|..] == Stream(rest);
    }
  }

  lemma FramedFront(stream: seq<Byte>) returns (entry: seq<Byte>, end: nat)
    requires stream != [] && Unframe(stream).Some?
    ensures LENGTH_BYTES <= end <= |stream| && Unframe(stream[end..]).Some?
    ensures Unframe(stream).value == [entry] + Unframe(stream[end..]).value
    ensures Fits(entry) && stream == Frame(entry) + stream[end..]
  {
    var size := stream[..LENGTH_BYTES];
    BigEndianOfValue(size);
    end := LENGTH_BYTES + Value(size);
    entry := stream[LENGTH_BYTES..end];
    assert stream == size + entry + stream[end..];
  }

  lemma {:induction false} ReadingBackIsFaithful(stream: seq<Byte>)
    requires Unframe(stream).Some?
    ensures Stream(Unframe(stream).value) == stream
    ensures forall e | e in Unframe(stream).value :: Fits(e)
    decreases |stream|
  {
    if stream != [] {
      var entry, end := FramedFront(stream);
      ReadingBackIsFaithful(stream[end..]);
      StreamCons(entry, Unframe(stream[end..]).value);
    }
  }

  /** The digested stream determines the entries. */
  lemma StreamIsInjective(a: seq<seq<Byte>>, b: seq<seq<Byte>>)
    requires (forall e | e in a :: Fits(e)) && (forall e | e in b :: Fits(e))
    ensures Stream(a) == Stream(b) <==> a == b
  {
    StreamReadsBack(a);
    StreamReadsBack(b);
  }

  /** Lengths up to two to the sixty-fourth fit. */
  lemma CapacityInDigits()
    ensures Capacity(LENGTH_BYTES) == 0x1_0000_0000_0000_0000
  {
    assert Capacity(2) == 0x1_0000;
    assert Capacity(4) == 0x1_0000_0000;
    assert Capacity(6) == 0x1_0000_0000_0000;
  }

  lemma QuotientIs(n: nat, d: nat, q: nat)
    requires d > 0 && d * q <= n < d * q + d
    ensures n / d == q
  {
    var k := n / d;
    assert d * k <= n < d * k + d;
    if k < q {
      ProductsGrow(d, k + 1, q);
    } else if q < k {
      ProductsGrow(d, q + 1, k);
    }
  }

  lemma ProductsGrow(d: nat, a: nat, b: nat)
    requires a <= b
    ensures d * a <= d * b && d * (a - 1) + d == d * a
  {
    assert d * (b - a) >= 0;
    assert d * (b - a) == d * b - d * a;
  }

  lemma DigitBelow(n: nat, c: nat)
    requires c > 0
    ensures n / 256 / c == n / (256 * c)
  {
    var m := n / 256;
    var q := m / c;
    assert c * q <= m < c * q + c;
    assert 256 * (c * q) <= n < 256 * (c * q) + 256 * c;
    assert 256 * (c * q) == 256 * c * q;
    QuotientIs(n, 256 * c, q);
  }

  /** The most significant byte comes first: byte i is the digit that has as many behind it. */
  lemma {:induction false} BytesExactly(n: nat, bytes: nat, i: nat)
    requires i < bytes
    ensures Capacity(bytes - 1 - i) > 0
    ensures BigEndian(n, bytes)[i] == n / Capacity(bytes - 1 - i) % 256
  {
    CapacityPositive(bytes - 1 - i);
    if i < bytes - 1 {
      BytesExactly(n / 256, bytes - 1, i);
      DigitBelow(n, Capacity(bytes - 2 - i));
    }
  }

  lemma {:induction false} CapacityPositive(bytes: nat)
    ensures Capacity(bytes) > 0
  {
    if bytes > 0 {
      CapacityPositive(bytes - 1);
    }
  }

  /** A frame is eight bytes of length, then the entry. */
  lemma FrameExactly(entry: seq<Byte>, i: nat)
    requires i < 8
    ensures |Frame(entry)| == 8 + |entry| && Frame(entry)[8..] == entry
    ensures Capacity(7 - i) > 0 && Frame(entry)[i] == |entry| / Capacity(7 - i) % 256
  {
    BytesExactly(|entry|, 8, i);
  }
}
