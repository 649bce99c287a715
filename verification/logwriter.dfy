/** The log writer (logwriter.cc) and the buffered file it appends to (env.h). */
module Writer {
  import opened Ordering
  import opened Bytes
  import Crc32c
  import opened LogFormat

  const BUFFER: nat := 65536

  /**
   * A file and its write buffer. Where a write may fail, a fault says that it does and how many bytes reach the
   * file before.
   */
  class WritableFile {
    var contents: seq<byte>
    var buf: seq<byte>

    constructor (contents: seq<byte>)
      ensures this.contents == contents && buf == []
    {
      this.contents, buf := contents, [];
    }

    /** Appends to the buffer what fits; only what does not fit is written and can fail. */
    method Append(data: seq<byte>, fault: Option<nat>, direct: Option<nat>) returns (ok: bool)
      requires |buf| <= BUFFER
      modifies this
      ensures |buf| <= BUFFER
      ensures |old(buf)| + |data| <= BUFFER ==> ok && contents == old(contents) && buf == old(buf) + data
      ensures ok ==> contents + buf == old(contents) + old(buf) + data
      ensures |old(buf)| + |data| > BUFFER && fault == Some(0) ==> !ok && contents == old(contents)
      ensures !ok ==>
        (fault.Some? || direct.Some?) && buf == [] && old(contents) <= contents <= old(contents) + old(buf) + data
    {
      var copySize := if |data| < BUFFER - |buf| then |data| else BUFFER - |buf|;
      buf := buf + data[..copySize];
      var rest := data[copySize..];
      InParts(old(contents), old(buf), data, copySize);
      if rest == [] {
        return true;
      }
      ghost var full := buf;
      ok := Flush(fault);
      if !ok {
        FirstPart(old(contents), full, rest, fault.value);
        return;
      }
      if |rest| < BUFFER {
        buf := rest;
      } else {
        ok := direct.None?;
        if !ok {
          FirstPart(contents, rest, [], direct.value);
        }
        contents := contents + if ok then rest else Written(rest, direct.value);
      }
    }

    static lemma InParts(contents: seq<byte>, buf: seq<byte>, data: seq<byte>, n: nat)
      requires n <= |data|
      ensures contents + (buf + data[..n]) + data[n..] == contents + buf + data
      ensures n == |data| ==> data[..n] == data
    {
      assert data[..n] + data[n..] == data;
    }

    static lemma FirstPart(contents: seq<byte>, a: seq<byte>, b: seq<byte>, kept: nat)
      ensures contents <= contents + Written(a, kept) <= contents + a + b
    {
    }

    /** Writes the buffer to the file; the buffer is empty afterwards even if that fails. */
    method Flush(fault: Option<nat>) returns (ok: bool)
      modifies this
      ensures buf == [] && (ok <==> fault.None?)
      ensures contents == old(contents) + if fault.None? then old(buf) else Written(old(buf), fault.value)
    {
      ok := fault.None?;
      contents := contents + if ok then buf else Written(buf, fault.value);
      buf := [];
    }
  }

  /** The checksum of each record type, computed once. */
  function TypeCrcs(): seq<bv32> {
    [Crc32c.Value([0]), Crc32c.Value([1]), Crc32c.Value([2]), Crc32c.Value([3]), Crc32c.Value([4])]
  }

  class LogWriter {
    const dest: WritableFile
    var blockoffset: nat
    const typecrc: seq<bv32>
    /** Where the writer believes the file ends: it is told of errors, and advances all the same. */
    ghost var pos: nat

    ghost predicate Inv()
      reads this
    {
      && blockoffset <= BLOCK
      && (BLOCK - blockoffset == Leftover(pos) || (blockoffset == BLOCK && Leftover(pos) == BLOCK))
      && typecrc == TypeCrcs()
    }

    /** Appends to a log of the given length. */
    constructor (dest: WritableFile, destlength: nat)
      ensures Inv() && this.dest == dest && pos == destlength
    {
      hide TypeCrcs;
      this.dest := dest;
      blockoffset := destlength % BLOCK;
      typecrc := TypeCrcs();
      pos := destlength;
    }

    /** Buffers header and payload and flushes; blockoffset advances even when that fails. */
    method EmitPhysicalRecord(t: byte, data: seq<byte>, fault: Option<nat>) returns (ok: bool)
      requires Inv() && (t as nat) <= LAST && blockoffset + HEADER + |data| <= BLOCK && |dest.buf| < HEADER
      modifies this, dest
      ensures Inv() && dest.buf == [] && (ok <==> fault.None?)
      ensures var bs := old(dest.buf) + Physical(t, data);
        dest.contents == old(dest.contents) + if ok then bs else Written(bs, fault.value)
      ensures pos == old(pos) + HEADER + |data| && blockoffset == old(blockoffset) + HEADER + |data|
    {
      hide Crc32c.Value, Crc32c.Extend, Crc32c.Mask, EncodeFixed32, Leftover, Written;
      LeftoverAdd(pos, HEADER + |data|);
      assert typecrc[t] == Crc32c.Value([t]);
      var crc := Crc32c.Mask(Crc32c.Extend(typecrc[t], data));
      var buf := EncodeFixed32(crc) + [(|data| % 256) as byte, (|data| / 256) as byte, t];
      ok := dest.Append(buf, None, None);
      if ok {
        ok := dest.Append(data, None, None);
        if ok {
          assert dest.buf == old(dest.buf) + Physical(t, data);
          ok := dest.Flush(fault);
        }
      }
      blockoffset := blockoffset + HEADER + |data|;
      pos := pos + HEADER + |data|;
    }

    /** Switches to a new block when the current one has no room for a header. */
    method PadBlock()
      requires Inv() && dest.buf == []
      modifies this, dest
      ensures Inv() && dest.contents == old(dest.contents) && dest.buf == Zeroes(Align(old(pos)) - old(pos))
        && |dest.buf| < HEADER
      ensures pos == Align(old(pos)) && BLOCK - blockoffset == Leftover(pos) >= HEADER
    {
      hide Leftover, TypeCrcs;
      LeftoverAdd(pos, Leftover(pos));
      assert Align(pos) == if Leftover(pos) < HEADER then pos + Leftover(pos) else pos;
      hide Align, Zeroes;
      assert dest.buf == Zeroes(0);
      var leftover := BLOCK - blockoffset;
      if leftover < HEADER {
        if leftover > 0 {
          TrailerIsZeroes(leftover);
          var _ := dest.Append([0, 0, 0, 0, 0, 0][..leftover], None, None);
        }
        blockoffset := 0;
        pos := Align(pos);
      }
    }

    static lemma TrailerIsZeroes(n: nat)
      requires n < HEADER
      ensures [0, 0, 0, 0, 0, 0][..n] == Zeroes(n)
    {
    }

    /** One turn of the loop: pads the block if need be and emits as much of the record as fits. */
    method EmitFragment(left: seq<byte>, begin: bool, fault: Option<nat>) returns (ok: bool, k: nat)
      requires Inv() && dest.buf == []
      modifies this, dest
      ensures Inv() && dest.buf == [] && k == Fit(Align(old(pos)), |left|) && (ok <==> fault.None?)
      ensures var bs := Fragment(old(pos), left, begin);
        && pos == FragmentEnd(old(pos), |left|)
        && dest.contents == old(dest.contents) + if ok then bs else Written(bs, fault.value)
    {
      hide Align, Leftover, Zeroes, Physical, TypeCrcs, Written;
      PadBlock();
      var avail := BLOCK - blockoffset - HEADER;
      k := if |left| < avail then |left| else avail;
      var end := |left| == k;
      ok := EmitPhysicalRecord(TypeOf(begin, end), left[..k], fault);
    }

    /** The write fails in the fragment that fate names, if the record has that many. */
    method AddRecord(slice: seq<byte>, fate: Fate) returns (ok: bool)
      requires Inv() && dest.buf == []
      modifies this, dest
      ensures Inv() && dest.buf == []
      ensures var r := Attempt(old(pos), slice, true, fate);
        ok == r.ok && dest.contents == old(dest.contents) + r.bytes && pos == r.next
    {
      hide Align, Turns, Fit, Zeroes, Physical, TypeCrcs, Fragment, FragmentEnd, Written, Attempt;
      ghost var target := Attempt(pos, slice, true, fate);
      var left, begin, more, ahead := slice, true, true, fate;
      ok := true;
      while more
        invariant Inv() && dest.buf == []
        invariant if more then
                    var r := Attempt(pos, left, begin, ahead);
                    && target.ok == r.ok && target.next == r.next
                    && old(dest.contents) + target.bytes == dest.contents + r.bytes
                  else ok == target.ok && dest.contents == old(dest.contents) + target.bytes && pos == target.next
        decreases more, Turns(pos, |left|)
      {
        AttemptUnfolds(dest.contents, pos, left, begin, ahead);
        var k;
        ok, k := EmitFragment(left, begin, if ahead.Fails? && ahead.fragment == 0 then Some(ahead.kept) else None);
        left := left[k..];
        begin := false;
        more := ok && |left| > 0;
        if more {
          ahead := Later(ahead);
        }
      }
    }
  }
}
