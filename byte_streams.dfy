/*
 * Content streams and the chunked comparison the copy engine runs before it rewrites the content of
 * a node (`streamsAreEqual` of DocStoreUtilities). A stream is a byte sequence read from a cursor;
 * a single read may deliver fewer bytes than the buffer holds, as a real input stream may.
 */
module ByteStreams {

  /** Size of each of the two comparison buffers: 128 KiB. */
  const BufferSize: nat := 128 * 1024

  /** An input stream over `data` that delivers at most `chunk` bytes per read. */
  class ByteStream {
    const data: seq<bv8>
    const chunk: nat
    var pos: nat

    ghost predicate Valid()
      reads this
    {
      pos <= |data| && chunk >= 1
    }

    /** The bytes not yet read. */
    function Rest(): seq<bv8>
      reads this
      requires Valid()
    {
      data[pos..]
    }

    constructor (data: seq<bv8>, chunk: nat)
      requires chunk >= 1
      ensures Valid() && this.data == data && this.chunk == chunk && Rest() == data
    {
      this.data := data;
      this.chunk := chunk;
      pos := 0;
    }

    /**
     * `read(buf)`: -1 at the end of the stream; otherwise copies between 1 and `buf.Length` of the
     * next bytes to the front of `buf` and returns how many.
     */
    method Read(buf: array<bv8>) returns (n: int)
      requires Valid() && buf.Length > 0
      modifies this, buf
      ensures Valid()
      ensures old(Rest()) == [] ==> n == -1 && Rest() == []
      ensures old(Rest()) != [] ==> (1 <= n <= buf.Length && n <= |old(Rest())|
                                     && buf[..n] == old(Rest())[..n] && Rest() == old(Rest())[n..])
    {
      if pos == |data| {
        return -1;
      }
      n := chunk;
      if buf.Length < n {
        n := buf.Length;
      }
      if |data| - pos < n {
        n := |data| - pos;
      }
      forall k | 0 <= k < n {
        buf[k] := data[pos + k];
      }
      pos := pos + n;
    }
  }

  /**
   * `if (pos >= cnt) { cnt = stream.read(buf); pos = 0; }`: refills the buffer once its bytes are
   * used up. A read never delivers 0 bytes into a non-empty buffer, so the source's retry loop
   * around the read runs once. `d[k..]` is what remains to be compared of this stream.
   */
  method Refill(s: ByteStream, buf: array<bv8>, pos: int, cnt: int, ghost d: seq<bv8>, ghost k: nat)
    returns (pos': int, cnt': int)
    requires s.Valid() && buf.Length > 0
    requires 0 <= pos <= cnt <= buf.Length && k <= |d|
    requires buf[pos..cnt] + s.Rest() == d[k..]
    modifies s, buf
    ensures s.Valid()
    ensures pos < cnt ==> pos' == pos && cnt' == cnt && buf[pos'..cnt'] + s.Rest() == d[k..]
    ensures pos >= cnt && cnt' < 0 ==> cnt' == -1 && |d| == k
    ensures pos >= cnt && cnt' >= 0 ==> (pos' == 0 < cnt' <= buf.Length && buf[pos'..cnt'] + s.Rest() == d[k..])
  {
    if pos >= cnt {
      cnt' := s.Read(buf);
      pos' := 0;
      if cnt' >= 0 {
        assert buf[..cnt'] + s.Rest() == d[k..];
      }
    } else {
      pos', cnt' := pos, cnt;
    }
  }

  /**
   * `streamsAreEqual(stream1, stream2)`: true iff both streams are absent, or both are present and
   * deliver the same bytes up to their ends. It consumes what it compares.
   */
  method StreamsAreEqual(s1: ByteStream?, s2: ByteStream?) returns (eq: bool)
    requires s1 != null ==> s1.Valid()
    requires s2 != null ==> s2.Valid()
    requires s1 == null || s1 != s2
    modifies s1, s2
    ensures eq <==> (s1 == null && s2 == null)
                    || (s1 != null && s2 != null && old(s1.Rest()) == old(s2.Rest()))
  {
    if s1 == null || s2 == null {
      return s1 == null && s2 == null;
    }
    ghost var d1 := s1.Rest();
    ghost var d2 := s2.Rest();
    var buf1 := new bv8[BufferSize];
    var buf2 := new bv8[BufferSize];
    var cnt1, cnt2 := 0, 0;
    var pos1, pos2 := 0, 0;
    ghost var k: nat := 0;
    while true
      invariant s1.Valid() && s2.Valid()
      invariant 0 <= pos1 <= cnt1 <= buf1.Length && 0 <= pos2 <= cnt2 <= buf2.Length
      invariant k <= |d1| && k <= |d2| && d1[..k] == d2[..k]
      invariant buf1[pos1..cnt1] + s1.Rest() == d1[k..]
      invariant buf2[pos2..cnt2] + s2.Rest() == d2[k..]
      invariant (pos1 == cnt1 && pos2 == cnt2 && k == 0) || (pos1 < cnt1 && pos2 < cnt2)
      decreases |d1| - k + |d2| - k + (if pos1 == cnt1 then 1 else 0)
    {
      var same;
      same, pos1, pos2, k := CompareBuffered(buf1, pos1, cnt1, buf2, pos2, cnt2, d1, d2, k, s1.Rest(), s2.Rest());
      if !same {
        return false;
      }
      pos1, cnt1 := Refill(s1, buf1, pos1, cnt1, d1, k);
      pos2, cnt2 := Refill(s2, buf2, pos2, cnt2, d2, k);
      var finished1 := cnt1 < 0;
      var finished2 := cnt2 < 0;
      if finished1 || finished2 {
        if finished1 && finished2 {
          assert d1 == d1[..k] && d2 == d2[..k];
          return true;
        }
        return false;
      }
    }
  }

  /**
   * The inner loop of `streamsAreEqual`: compares the buffered bytes pairwise until one buffer is
   * used up, or reports the first difference.
   */
  method CompareBuffered(buf1: array<bv8>, pos1: int, cnt1: int, buf2: array<bv8>, pos2: int, cnt2: int,
                         ghost d1: seq<bv8>, ghost d2: seq<bv8>, ghost k: nat,
                         ghost rest1: seq<bv8>, ghost rest2: seq<bv8>)
    returns (same: bool, pos1': int, pos2': int, ghost k': nat)
    requires 0 <= pos1 <= cnt1 <= buf1.Length && 0 <= pos2 <= cnt2 <= buf2.Length
    requires k <= |d1| && k <= |d2| && d1[..k] == d2[..k]
    requires buf1[pos1..cnt1] + rest1 == d1[k..]
    requires buf2[pos2..cnt2] + rest2 == d2[k..]
    ensures !same ==> d1 != d2
    ensures same ==> 0 <= pos1' <= cnt1 && 0 <= pos2' <= cnt2 && (pos1' == cnt1 || pos2' == cnt2)
    ensures same ==> k' == k + (pos1' - pos1) && k' - k == pos2' - pos2
    ensures same ==> k' <= |d1| && k' <= |d2| && d1[..k'] == d2[..k']
    ensures same ==> buf1[pos1'..cnt1] + rest1 == d1[k'..] && buf2[pos2'..cnt2] + rest2 == d2[k'..]
  {
    var remaining := if cnt1 - pos1 < cnt2 - pos2 then cnt1 - pos1 else cnt2 - pos2;
    pos1', pos2', k' := pos1, pos2, k;
    for i := 0 to remaining
      invariant pos1' == pos1 + i && pos2' == pos2 + i && k' == k + i
      invariant k' <= |d1| && k' <= |d2| && d1[..k'] == d2[..k']
      invariant buf1[pos1'..cnt1] + rest1 == d1[k'..]
      invariant buf2[pos2'..cnt2] + rest2 == d2[k'..]
    {
      assert d1[k'] == buf1[pos1'] by { assert d1[k'..][0] == (buf1[pos1'..cnt1] + rest1)[0]; }
      assert d2[k'] == buf2[pos2'] by { assert d2[k'..][0] == (buf2[pos2'..cnt2] + rest2)[0]; }
      if buf1[pos1'] != buf2[pos2'] {
        assert d1[k'] != d2[k'];
        return false, pos1', pos2', k';
      }
      assert buf1[pos1' + 1..cnt1] + rest1 == (buf1[pos1'..cnt1] + rest1)[1..];
      assert buf2[pos2' + 1..cnt2] + rest2 == (buf2[pos2'..cnt2] + rest2)[1..];
      assert d1[..k' + 1] == d1[..k'] + [d1[k']];
      assert d2[..k' + 1] == d2[..k'] + [d2[k']];
      pos1', pos2', k' := pos1' + 1, pos2' + 1, k' + 1;
    }
    same := true;
  }
}
