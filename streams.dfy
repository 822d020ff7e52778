/**
 * Binary file objects as the anonymizer uses them: an input opened for reading, whose
 * position moves with every read and every seek, and an output opened for writing, whose
 * bytes are laid down wherever the position stands.
 */
module Streams {
  import opened Bytes

  /**
   * Counts and positions handed to a file object must fit a signed 64-bit integer
   * (`Py_ssize_t`, `off_t`): this is the first value that does not.
   */
  const SizeLimit: int := 0x8000_0000_0000_0000

  /** The counts `read(n)` accepts: -1 for "to the end", or a count below 2^63. */
  predicate ReadLengthOk(n: int) {
    -1 <= n < SizeLimit
  }

  /**
   * What `read(n)` returns from position `pos`: up to `n` bytes, everything up to the end
   * of the file when `n` is -1, nothing once the position is at or past the end. The file
   * object refuses a count outside `ReadLengthOk`; callers model that failure.
   */
  function ReadAt(data: seq<byte>, pos: nat, n: int): seq<byte>
    requires n >= -1
  {
    if pos >= |data| then []
    else if n == -1 || pos + n > |data| then data[pos..]
    else data[pos..pos + n]
  }

  /**
   * A read returns consecutive bytes of the file from the position: exactly `n` of them
   * when that many are left, all that are left when fewer are or `n` is -1.
   */
  lemma ReadAtFacts(data: seq<byte>, pos: nat, n: int)
    requires ReadLengthOk(n)
    ensures var bs := ReadAt(data, pos, n);
      (pos + |bs| <= |data| || bs == []) &&
      (pos <= |data| ==> bs == data[pos..pos + |bs|]) &&
      (n >= 0 ==> |bs| <= n) &&
      (n >= 0 && pos + n <= |data| ==> |bs| == n) &&
      ((n == -1 || pos + n > |data|) && pos <= |data| ==> pos + |bs| == |data|)
  {
  }

  /** An input file: fixed contents and a current position. */
  class InStream {
    const data: seq<byte>
    var pos: nat

    constructor (data: seq<byte>)
      ensures this.data == data && pos == 0
    {
      this.data := data;
      pos := 0;
    }

    /** `read(n)`: the position advances by the number of bytes actually read. */
    method Read(n: int) returns (bs: seq<byte>)
      requires ReadLengthOk(n)
      modifies this
      ensures bs == ReadAt(data, old(pos), n)
      ensures pos == old(pos) + |bs|
    {
      bs := ReadAt(data, pos, n);
      pos := pos + |bs|;
    }

    /** `seek(p)`: any position below 2^63, even past the end, may be set; callers fail the others. */
    method Seek(p: nat)
      requires p < SizeLimit
      modifies this
      ensures pos == p
    {
      pos := p;
    }
  }

  predicate Within(k: nat, p: nat, n: nat) {
    p <= k < p + n
  }

  /** The bytes `bs` laid down from position `p`. */
  function Place(p: nat, bs: seq<byte>): map<nat, byte> {
    map k: nat | p <= k < p + |bs| && Within(k, p, |bs|) :: bs[k - p]
  }

  /** The positions of a write are exactly those from `p` on, holding the bytes in order. */
  lemma PlaceFacts(p: nat, bs: seq<byte>)
    ensures forall k :: k in Place(p, bs) <==> p <= k < p + |bs|
    ensures forall k :: p <= k < p + |bs| ==> Place(p, bs)[k] == bs[k - p]
  {
  }

  /** Two consecutive writes lay down their concatenation. */
  lemma PlaceConcat(p: nat, a: seq<byte>, b: seq<byte>)
    ensures Place(p, a) + Place(p + |a|, b) == Place(p, a + b)
  {
    PlaceFacts(p, a);
    PlaceFacts(p + |a|, b);
    PlaceFacts(p, a + b);
    var l := Place(p, a) + Place(p + |a|, b);
    var r := Place(p, a + b);
    assert forall k :: k in l <==> k in r;
    forall k | k in l
      ensures l[k] == r[k]
    {
      if k < p + |a| {
        assert (a + b)[k - p] == a[k - p];
      } else {
        assert (a + b)[k - p] == b[k - p - |a|];
      }
    }
  }

  /** Writing `a` and then `b` after it on top of `m` lays down `a + b` on top of `m`. */
  lemma PlaceAppend(m: map<nat, byte>, p: nat, a: seq<byte>, b: seq<byte>)
    ensures m + Place(p, a) + Place(p + |a|, b) == m + Place(p, a + b)
  {
    PlaceConcat(p, a, b);
    var pa := Place(p, a);
    var pb := Place(p + |a|, b);
    assert m + pa + pb == m + (pa + pb);
  }

  /** Later writes win, in whatever grouping they are laid down. */
  lemma UnionAssoc(a: map<nat, byte>, b: map<nat, byte>, c: map<nat, byte>)
    ensures a + b + c == a + (b + c)
  {
  }

  /**
   * A write of `bs` at the end of what has been written from `at` over `base` extends
   * that image by `bs`.
   */
  lemma WriteExtends(base: map<nat, byte>, at: nat, img: seq<byte>, c0: map<nat, byte>, p0: nat,
                     bs: seq<byte>, c1: map<nat, byte>, p1: nat)
    requires c0 == base + Place(at, img) && p0 == at + |img|
    requires c1 == c0 + Place(p0, bs) && p1 == p0 + |bs|
    ensures c1 == base + Place(at, img + bs) && p1 == at + |img + bs|
  {
    PlaceAppend(base, at, img, bs);
  }

  /**
   * An output file opened for writing: the bytes written so far, by position, and the
   * current position. Positions never written are holes of the file.
   */
  class OutStream {
    var contents: map<nat, byte>
    var pos: nat

    constructor ()
      ensures contents == map[] && pos == 0
    {
      contents := map[];
      pos := 0;
    }

    method Seek(p: nat)
      modifies this
      ensures pos == p && contents == old(contents)
    {
      pos := p;
    }

    /** `write(bs)`: the bytes overwrite whatever stood at the position, which then advances. */
    method Write(bs: seq<byte>)
      modifies this
      ensures contents == old(contents) + Place(old(pos), bs)
      ensures pos == old(pos) + |bs|
    {
      contents := contents + Place(pos, bs);
      pos := pos + |bs|;
    }
  }
}
