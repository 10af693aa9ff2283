/** Decoding from a reader that delivers its bytes in pieces. */
module CborStream {
  import opened MachineInts
  import opened CborItems
  import opened CborScan
  import opened CborValues
  import opened CborBytes
  import opened CborDecoder
  import opened Wrappers

  /** What one call decodes: a value with the error it carries, a fault in the data, or the reader's end of input. */
  datatype Result = Decoded(p: Parsed) | Rejected(fault: Fault) | EndOfInput

  /** What a stream yields next: it depends on the bytes alone. */
  ghost function Next(s: seq<byte>, m: Mode): Result {
    if s == [] then EndOfInput else
    match Scan(s, 0, 0, m.lim)
    case Done(_, _) => AcceptedHasItem(s, 0, 0, m.lim); Decoded(Meaning(s, 0, m))
    case Fail(e) => if e == UnexpectedEof then EndOfInput else Rejected(e)
  }

  /** How many bytes that takes. */
  function Consumed(s: seq<byte>, m: Mode): (n: nat)
    ensures n <= |s|
  {
    match Scan(s, 0, 0, m.lim)
    case Done(end, _) => end
    case Fail(_) => 0
  }

  function Flatten(chunks: seq<seq<byte>>): seq<byte> {
    if chunks == [] then [] else chunks[0] + Flatten(chunks[1..])
  }

  /**
   * A reader that hands out non-empty chunks, splitting one that does not fit, and reports the end of
   * input: together with the last bytes if it is eager, else with no bytes after them.
   */
  class Reader {
    var chunks: seq<seq<byte>>
    const eager: bool

    constructor (chunks: seq<seq<byte>>, eager: bool)
      requires forall c :: c in chunks ==> c != []
      ensures this.chunks == chunks && this.eager == eager && Valid()
    {
      this.chunks := chunks;
      this.eager := eager;
    }

    ghost predicate Valid()
      reads this
    {
      forall c :: c in chunks ==> c != []
    }

    ghost function Pending(): seq<byte>
      reads this
    {
      Flatten(chunks)
    }

    /** Fills `p` from index `from`; `n` is 0 only at the end of input. */
    method Read(p: array<byte>, from: nat) returns (n: nat, end: bool)
      requires Valid() && from < p.Length
      modifies this, p
      ensures Valid() && from + n <= p.Length
      ensures p[..from] == old(p[..from]) && p[from..from + n] + Pending() == old(Pending())
      ensures n == 0 <==> old(Pending()) == []
      ensures end <==> Pending() == [] && (n == 0 || eager)
    {
      hide Flatten;
      FirstChunk(chunks);
      if chunks == [] { return 0, true; }
      var c := chunks[0];
      assert c in chunks;
      var room := p.Length - from;
      n := if |c| <= room then |c| else room;
      forall i | 0 <= i < n { p[from + i] := c[i]; }
      assert p[from..from + n] == c[..n];
      ghost var rest := chunks[1..];
      assert forall x :: x in rest ==> x in chunks;
      chunks := if n == |c| then chunks[1..] else [c[n..]] + chunks[1..];
      FirstChunk(chunks);
      if n < |c| {
        assert chunks[0] == c[n..] != [] && chunks[1..] == rest;
        Regroup(c, n, Flatten(rest));
      } else {
        assert c[..n] == c;
      }
      end := eager && chunks == [];
    }

    lemma FirstChunk(chunks: seq<seq<byte>>)
      requires forall c :: c in chunks ==> c != []
      ensures chunks == [] ==> Flatten(chunks) == []
      ensures chunks != [] ==> Flatten(chunks) == chunks[0] + Flatten(chunks[1..]) && Flatten(chunks) != []
    {
      if chunks != [] { assert chunks[0] in chunks; }
    }

    lemma Regroup(c: seq<byte>, n: nat, rest: seq<byte>)
      requires n <= |c|
      ensures c[..n] + (c[n..] + rest) == c + rest
    {
    }
  }

  /** The greatest stream the model reads: far beyond any memory, it keeps capacities within an int. */
  const MAX_STREAM := 0x1000_0000_0000_0000
  const MIN_READ := 512

  class StreamDecoder {
    const r: Reader
    const d: Decoder
    var mem: array<byte>
    var len: nat
    var off: nat
    var bytesRead: nat

    constructor (r: Reader, dm: Mode)
      requires r.Valid() && |r.Pending()| <= MAX_STREAM
      ensures Valid() && fresh(mem) && fresh(d) && this.r == r && d.dm == dm && Unread() == r.Pending() && bytesRead == 0
    {
      this.r := r;
      d := new Decoder([], dm);
      mem := new byte[0];
      len, off, bytesRead := 0, 0, 0;
    }

    ghost predicate Valid()
      reads this, mem, r, d
    {
      && r.Valid() && off <= len <= mem.Length <= 2 * MAX_STREAM + 3 * MIN_READ
      && bytesRead + |Unread()| <= MAX_STREAM
    }

    /** Everything the stream still has to offer: the unread part of the buffer and what the reader holds. */
    ghost function Unread(): seq<byte>
      reads this, mem, r
      requires off <= len <= mem.Length
    {
      mem[off..len] + r.Pending()
    }

    /** Copies the bytes from `from` to the front of the buffer; the ranges may overlap. */
    method OverwriteBuf(src: array<byte>, from: nat, n: nat)
      requires from + n <= src.Length && n <= mem.Length
      modifies this, mem
      ensures mem == old(mem) && len == n && off == 0 && bytesRead == old(bytesRead)
      ensures mem[..n] == old(src[from..from + n])
    {
      forall i | 0 <= i < n { mem[i] := src[from + i]; }
      len := n;
      off := 0;
    }

    /** Grows the buffer if less than a minimal read fits beside the unread bytes, and moves those to the front. */
    method MakeRoom()
      requires Valid()
      modifies this, mem
      ensures mem == old(mem) || fresh(mem)
      ensures off == 0 && len + MIN_READ <= mem.Length <= 2 * MAX_STREAM + 3 * MIN_READ
      ensures mem[..len] == old(mem[off..len]) && bytesRead == old(bytesRead)
    {
      if mem.Length - len + off < MIN_READ {
        var oldBuf, from := mem, off;
        var n0 := len - off;
        mem := new byte[2 * mem.Length + MIN_READ];
        OverwriteBuf(oldBuf, from, n0);
      }
      if off > 0 {
        OverwriteBuf(mem, off, len - off);
      }
    }

    /** Makes room and reads once. Unread bytes are kept in order; `offered` is the room given to the reader. */
    method Fill() returns (n: nat, end: bool, ghost offered: nat)
      requires Valid()
      modifies this, mem, r
      ensures Valid() && (mem == old(mem) || fresh(mem)) && offered >= 512
      ensures Unread() == old(Unread()) && bytesRead == old(bytesRead)
      ensures n == 0 <==> old(r.Pending()) == []
      ensures |r.Pending()| + n == |old(r.Pending())| && (n == 0 ==> end)
    {
      hide Flatten, Reader.Pending;
      ghost var unread, before := mem[off..len], r.Pending();
      MakeRoom();
      offered := mem.Length - len;
      n, end := r.Read(mem, len);
      assert mem[0..len + n] == unread + mem[len..len + n];
      Rejoin(mem[0..len + n], unread, mem[len..len + n], r.Pending(), before);
      len := len + n;
    }

    lemma Rejoin(buf: seq<byte>, unread: seq<byte>, new_: seq<byte>, pending: seq<byte>, before: seq<byte>)
      requires buf == unread + new_ && new_ + pending == before
      ensures buf + pending == unread + before
    {
      assert buf + pending == unread + (new_ + pending);
    }

    /** Decodes from the buffer alone; `short` says that more bytes are needed, and then nothing has changed. */
    method DecodeBuffered() returns (res: Result, short: bool)
      requires Valid() && off < len
      modifies this`off, this`bytesRead, d
      ensures off <= len && off == old(off) + Consumed(mem[old(off)..len], d.dm) && bytesRead == old(bytesRead) + (off - old(off))
      ensures short <==> Scan(mem[old(off)..len], 0, 0, d.dm.lim) == Fail(UnexpectedEof)
      ensures !short ==> res == Next(mem[old(off)..len], d.dm)
    {
      hide Scan, Meaning, HasItem;
      d.Reset(mem[off..len]);
      var v, fault, err := d.Value();
      off := off + d.off;
      bytesRead := bytesRead + d.off;
      if fault.Some? { return Rejected(fault.value), fault == Some(UnexpectedEof); }
      return Decoded(Parsed(v, err)), false;
    }

    /**
     * Decodes the next value of the stream. The outcome, what is left and the byte count depend
     * only on the bytes that lie ahead, not on how the reader cuts them or on what is buffered.
     */
    method Decode() returns (res: Result)
      requires Valid()
      modifies this, mem, r, d
      ensures Valid() && (mem == old(mem) || fresh(mem))
      ensures res == old(Next(Unread(), d.dm))
      ensures Unread() == old(Unread()[Consumed(Unread(), d.dm)..])
      ensures bytesRead == old(bytesRead + Consumed(Unread(), d.dm))
      decreases |r.Pending()|, 3
    {
      hide Next, Consumed, Scan, Flatten, Reader.Valid, Decoder.Valid;
      ghost var all := Unread();
      NextOfShort(all, d.dm);
      if len == off {
        var n, _, _ := Fill();
        // An end reported together with data is not looked at; the next read reports it again.
        if n == 0 { return EndOfInput; }
      }
      res := DecodeAhead();
    }

    /** Decodes from the buffer, which is not empty, and reads on if that falls short. */
    method DecodeAhead() returns (res: Result)
      requires Valid() && off < len
      modifies this, mem, r, d
      ensures Valid() && (mem == old(mem) || fresh(mem))
      ensures res == old(Next(Unread(), d.dm))
      ensures Unread() == old(Unread()[Consumed(Unread(), d.dm)..])
      ensures bytesRead == old(bytesRead + Consumed(Unread(), d.dm))
      decreases |r.Pending()|, 2
    {
      hide Next, Consumed, Scan, Flatten, Reader.Valid, Decoder.Valid;
      ghost var ahead, later := mem[off..len], r.Pending();
      var short;
      res, short := DecodeBuffered();
      NextOfLonger(ahead, later, d.dm);
      if short {
        NextOfShort(ahead, d.dm);
        assert mem[off..len] == ahead;
        res := ReadOn();
        return;
      }
      Drop(ahead, later, Consumed(ahead, d.dm));
      assert mem[off..len] == ahead[Consumed(ahead, d.dm)..];
    }

    /** Reads more bytes, since the buffer falls short of an item, and decodes again. */
    method ReadOn() returns (res: Result)
      requires Valid() && Scan(mem[off..len], 0, 0, d.dm.lim) == Fail(UnexpectedEof)
      modifies this, mem, r, d
      ensures Valid() && (mem == old(mem) || fresh(mem))
      ensures res == old(Next(Unread(), d.dm))
      ensures Unread() == old(Unread()[Consumed(Unread(), d.dm)..])
      ensures bytesRead == old(bytesRead + Consumed(Unread(), d.dm))
      decreases |r.Pending()|, 0
    {
      hide Next, Consumed, Scan, Flatten, Reader.Valid, Decoder.Valid;
      ghost var ahead, later := mem[off..len], r.Pending();
      NextOfShort(ahead, d.dm);
      var n, _, _ := Fill();
      if n == 0 {
        assert later == [] && ahead + later == ahead;
        return EndOfInput;
      }
      res := Decode();
    }
  }

  lemma Drop(a: seq<byte>, b: seq<byte>, n: nat)
    requires n <= |a|
    ensures (a + b)[n..] == a[n..] + b
  {
  }

  lemma NextOfShort(s: seq<byte>, m: Mode)
    ensures s == [] || Scan(s, 0, 0, m.lim) == Fail(UnexpectedEof) ==> Next(s, m) == EndOfInput && Consumed(s, m) == 0
  {
  }

  lemma NextOfLonger(s: seq<byte>, more: seq<byte>, m: Mode)
    requires s != []
    ensures Scan(s, 0, 0, m.lim) != Fail(UnexpectedEof) ==> Next(s + more, m) == Next(s, m) && Consumed(s + more, m) == Consumed(s, m)
  {
    hide Scan, Meaning, HasItem;
    if Scan(s, 0, 0, m.lim) != Fail(UnexpectedEof) {
      ScanLonger(s, more, 0, 0, m.lim);
      if Scan(s, 0, 0, m.lim).Done? { SameMeaning(s, more, m); }
    }
  }

  /** Bytes after an accepted item do not change its value. */
  lemma SameMeaning(s: seq<byte>, more: seq<byte>, m: Mode)
    requires Scan(s, 0, 0, m.lim).Done? && Scan(s + more, 0, 0, m.lim).Done?
    ensures HasItem(s, 0) && HasItem(s + more, 0) && Meaning(s + more, 0, m) == Meaning(s, 0, m)
  {
    hide Scan, Spells, WellFormed, Size;
    var it := AcceptedItem(s, 0, 0, m.lim);
    SpellsMoved(s, 0, s + more, 0, it);
    TheItemAt(s + more, 0, it);
  }

  // Whole runs.

  /** The outcomes of `n` calls on a stream, each with the number of bytes read by then. */
  ghost function Run(s: seq<byte>, bytesRead: nat, n: nat, m: Mode): seq<(Result, nat)>
    decreases n
  {
    if n == 0 then [] else
    var k := bytesRead + Consumed(s, m);
    [(Next(s, m), k)] + Run(s[Consumed(s, m)..], k, n - 1, m)
  }

  /** Any number of calls, whatever the chunks, whatever is buffered: the outcomes are a function of the bytes. */
  method DecodeAll(sd: StreamDecoder, n: nat) returns (rs: seq<(Result, nat)>)
    requires sd.Valid()
    modifies sd, sd.mem, sd.r, sd.d
    ensures sd.Valid() && rs == old(Run(sd.Unread(), sd.bytesRead, n, sd.d.dm))
  {
    hide Next, Consumed, Run;
    ghost var s, k, m := sd.Unread(), sd.bytesRead, sd.d.dm;
    ghost var s0, k0 := s, k;
    rs := [];
    for i := 0 to n
      invariant sd.Valid() && (sd.mem == old(sd.mem) || fresh(sd.mem)) && s == sd.Unread() && k == sd.bytesRead
      invariant rs + Run(s, k, n - i, m) == Run(s0, k0, n, m)
    {
      RunStep(rs, s, k, n - i, m);
      var res := sd.Decode();
      rs := rs + [(res, sd.bytesRead)];
      s, k := sd.Unread(), sd.bytesRead;
    }
    RunEnd(rs, s, k, m);
  }

  lemma RunStep(rs: seq<(Result, nat)>, s: seq<byte>, k: nat, n: nat, m: Mode)
    requires n > 0
    ensures rs + Run(s, k, n, m)
         == (rs + [(Next(s, m), k + Consumed(s, m))]) + Run(s[Consumed(s, m)..], k + Consumed(s, m), n - 1, m)
  {
    hide Next, Consumed;
  }

  lemma RunEnd(rs: seq<(Result, nat)>, s: seq<byte>, k: nat, m: Mode)
    ensures rs + Run(s, k, 0, m) == rs
  {
  }

  /** The same calls on one decoder that holds the whole stream give the same outcomes and the same byte counts. */
  method DecodeInPlace(d: Decoder, n: nat) returns (rs: seq<(Result, nat)>)
    requires d.Valid() && d.off == 0
    modifies d
    ensures rs == old(Run(d.data, 0, n, d.dm))
  {
    hide Next, Consumed, Run;
    rs := [];
    ghost var all := d.data;
    assert all[0..] == all;
    for i := 0 to n
      invariant d.Valid() && d.data == all
      invariant rs + Run(all[d.off..], d.off, n - i, d.dm) == Run(all, 0, n, d.dm)
    {
      ghost var start := d.off;
      RunStep(rs, all[start..], start, n - i, d.dm);
      var res := InPlaceStep(d);
      rs := rs + [(res, d.off)];
    }
    RunEnd(rs, all[d.off..], d.off, d.dm);
  }

  method InPlaceStep(d: Decoder) returns (res: Result)
    requires d.Valid()
    modifies d
    ensures d.Valid() && d.data == old(d.data)
    ensures res == old(Next(d.data[d.off..], d.dm))
    ensures d.off == old(d.off + Consumed(d.data[d.off..], d.dm))
    ensures d.data[d.off..] == old(d.data[d.off..][Consumed(d.data[d.off..], d.dm)..])
  {
    hide Next, Consumed, Scan, Meaning, HasItem;
    NextInPlace(d.data, d.off, d.dm);
    var start := d.off;
    var v, fault, err := d.Value();
    if fault == None { return Decoded(Parsed(v, err)); }
    if start == |d.data| || fault == Some(UnexpectedEof) { return EndOfInput; }
    return Rejected(fault.value);
  }

  /** Decoding at an offset is decoding the bytes from there on. */
  lemma NextInPlace(data: seq<byte>, off: nat, m: Mode)
    requires off <= |data|
    ensures off == |data| ==> Next(data[off..], m) == EndOfInput && Consumed(data[off..], m) == 0
    ensures off < |data| ==> match Scan(data, off, 0, m.lim)
      case Done(end, _) => HasItem(data, off) && Next(data[off..], m) == Decoded(Meaning(data, off, m)) && Consumed(data[off..], m) == end - off
      case Fail(e) => Next(data[off..], m) == (if e == UnexpectedEof then EndOfInput else Rejected(e)) && Consumed(data[off..], m) == 0
  {
    hide Scan, Spells, WellFormed, Size, Interp;
    ScanSuffix(data, off, 0, m.lim);
    NextOfShort(data[off..], m);
    if Scan(data, off, 0, m.lim).Done? {
      var it := AcceptedItem(data, off, 0, m.lim);
      var back: int := -(off as int);
      SpellsMoved(data, off, data[off..], back, it);
      TheItemAt(data[off..], 0, it);
    }
  }
}
