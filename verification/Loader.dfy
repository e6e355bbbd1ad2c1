/**
 Lazy program loading: kexec only records where the segments lie, and a page fault builds one page
 from the file.  The page built is the page an eager loader would have built.
 */
module Loader {
  import opened Common

  const UINT: nat := 0x1_0000_0000

  /** A program header: its segment's place in memory and in the file. */
  datatype Header = Header(load: bool, exec: bool, vaddr: nat, off: nat, filesz: nat, memsz: nat)

  predicate Acceptable(h: Header)
  {
    h.load ==> h.filesz <= h.memsz && h.vaddr + h.memsz < UINT64 && h.vaddr % PGSIZE == 0
  }

  /** The place of one segment class as kexec records it; offset and size are 32-bit fields. */
  datatype Segment = Segment(start: nat, end: nat, off: nat, filesz: nat)

  datatype Image = Image(text: Segment, data: Segment, sz: nat)

  const EMPTY: Image := Image(Segment(0, 0, 0, 0), Segment(0, 0, 0, 0), 0)

  /** kexec's bookkeeping for a further segment of one class: the first nonzero start, the last everything else. */
  function Extend(s: Segment, h: Header): Segment
  {
    Segment(if s.start == 0 then h.vaddr else s.start, h.vaddr + h.memsz, h.off % UINT, h.filesz % UINT)
  }

  function Absorb(m: Image, h: Header): Image
  {
    var end := h.vaddr + h.memsz;
    if !h.load then m
    else Image(if h.exec then Extend(m.text, h) else m.text,
               if h.exec then m.data else Extend(m.data, h),
               if end > m.sz then end else m.sz)
  }

  /** The image recorded for a list of program headers, or None if one of them is rejected. */
  function Scanned(hs: seq<Header>): (m: Option<Image>)
    decreases |hs|
  {
    if hs == [] then Some(EMPTY)
    else
      var before := Scanned(hs[..|hs| - 1]);
      if before.None? || !Acceptable(hs[|hs| - 1]) then None
      else Some(Absorb(before.value, hs[|hs| - 1]))
  }

  lemma {:induction false} ScannedAccepts(hs: seq<Header>)
    ensures Scanned(hs).Some? <==> forall i :: 0 <= i < |hs| ==> Acceptable(hs[i])
    decreases |hs|
  {
    if hs != [] {
      ScannedAccepts(hs[..|hs| - 1]);
      assert forall i :: 0 <= i < |hs| - 1 ==> hs[..|hs| - 1][i] == hs[i];
    }
  }

  /** The end of the highest segment when the loop over the headers stops: at the first rejected one, or after all. */
  function Reached(hs: seq<Header>): (top: nat)
    decreases |hs|
  {
    if Scanned(hs).Some? then Scanned(hs).value.sz else Reached(hs[..|hs| - 1])
  }

  lemma {:induction false} StopsAt(hs: seq<Header>, i: nat)
    requires i < |hs| && Scanned(hs[..i]).Some? && !Acceptable(hs[i])
    ensures Scanned(hs).None? && Reached(hs) == Scanned(hs[..i]).value.sz
    decreases |hs|
  {
    var hs' := hs[..|hs| - 1];
    if i < |hs'| {
      assert hs'[..i] == hs[..i];
      StopsAt(hs', i);
    }
  }

  lemma {:induction false} ReachedBelow(hs: seq<Header>)
    ensures Reached(hs) < UINT64
    decreases |hs|
  {
    if hs != [] {
      ReachedBelow(hs[..|hs| - 1]);
    }
  }

  /** The program-header loop of kexec: the image, unless a header is rejected, and how far the segments reached. */
  method ScanHeaders(hs: seq<Header>) returns (m: Option<Image>, top: nat)
    ensures m == Scanned(hs) && top == Reached(hs)
  {
    var textStart: nat, textEnd: nat, textOff: nat, textFilesz: nat := 0, 0, 0, 0;
    var dataStart: nat, dataEnd: nat, dataOff: nat, dataFilesz: nat := 0, 0, 0, 0;
    var sz: nat := 0;
    var i := 0;
    while i < |hs|
      invariant 0 <= i <= |hs|
      invariant Scanned(hs[..i]) == Some(Image(Segment(textStart, textEnd, textOff, textFilesz),
                                               Segment(dataStart, dataEnd, dataOff, dataFilesz), sz))
    {
      var ph := hs[i];
      assert hs[..i + 1][..i] == hs[..i];
      if ph.load {
        if ph.memsz < ph.filesz || ph.vaddr + ph.memsz >= UINT64 || ph.vaddr % PGSIZE != 0 {
          StopsAt(hs, i);
          return None, sz;
        }
        if ph.exec {
          if textStart == 0 {
            textStart := ph.vaddr;
          }
          textEnd := ph.vaddr + ph.memsz;
        } else {
          if dataStart == 0 {
            dataStart := ph.vaddr;
          }
          dataEnd := ph.vaddr + ph.memsz;
        }
        if ph.vaddr + ph.memsz > sz {
          sz := ph.vaddr + ph.memsz;
        }
        if ph.exec {
          textOff, textFilesz := ph.off % UINT, ph.filesz % UINT;
        } else {
          dataOff, dataFilesz := ph.off % UINT, ph.filesz % UINT;
        }
      }
      i := i + 1;
    }
    assert hs[..i] == hs;
    m := Some(Image(Segment(textStart, textEnd, textOff, textFilesz),
                    Segment(dataStart, dataEnd, dataOff, dataFilesz), sz));
    top := sz;
  }

  ghost function Recorded(h: Header): Segment
  {
    Segment(h.vaddr, h.vaddr + h.memsz, h.off % UINT, h.filesz % UINT)
  }

  /** Header i is the only loadable one of its class. */
  ghost predicate OnlyOne(hs: seq<Header>, i: nat)
  {
    i < |hs| && hs[i].load && forall j :: 0 <= j < |hs| && j != i && hs[j].load ==> hs[j].exec != hs[i].exec
  }

  /** A program with one segment of a class has exactly that segment recorded. */
  lemma {:induction false} OneSegmentRecorded(hs: seq<Header>, i: nat)
    requires Scanned(hs).Some? && OnlyOne(hs, i)
    ensures (if hs[i].exec then Scanned(hs).value.text else Scanned(hs).value.data) == Recorded(hs[i])
    decreases |hs|
  {
    var hs' := hs[..|hs| - 1];
    if i < |hs'| {
      OneSegmentRecorded(hs', i);
    } else {
      NoSegmentRecorded(hs', hs[i].exec);
    }
  }

  lemma {:induction false} NoSegmentRecorded(hs: seq<Header>, exec: bool)
    requires Scanned(hs).Some? && forall j :: 0 <= j < |hs| && hs[j].load ==> hs[j].exec != exec
    ensures (if exec then Scanned(hs).value.text else Scanned(hs).value.data) == Segment(0, 0, 0, 0)
    decreases |hs|
  {
    if hs != [] {
      NoSegmentRecorded(hs[..|hs| - 1], exec);
    }
  }

  /** readi into a kernel buffer: the bytes actually read. */
  function ReadI(file: seq<byte>, off: nat, n: nat): (r: seq<byte>)
  {
    if off > |file| then []
    else if off + n > |file| then file[off..]
    else file[off..off + n]
  }

  function Zeros(n: nat): (z: seq<byte>)
    ensures |z| == n && forall i :: 0 <= i < n ==> z[i] == 0
  {
    seq(n, i => 0)
  }

  /** How many bytes of the page come from the file. */
  function FileBytes(s: Segment, page: nat): (n: nat)
    requires s.start <= page
  {
    var rest := if s.filesz > page - s.start then s.filesz - (page - s.start) else 0;
    if rest > PGSIZE then PGSIZE else rest
  }

  /** The page both fault handlers build for `page` in segment s; None where the file is too short and the load fails. */
  function BuiltPage(file: seq<byte>, s: Segment, page: nat): (r: Option<seq<byte>>)
    requires s.start <= page
    ensures r.Some? ==> |r.value| == PGSIZE
  {
    var n := FileBytes(s, page);
    if n == 0 then Some(Zeros(PGSIZE))
    else
      var got := ReadI(file, (s.off + (page - s.start)) % UINT, n);
      if |got| != n then None else Some(got + Zeros(PGSIZE - n))
  }

  /** The byte at address a once segment h is loaded eagerly into zeroed memory. */
  ghost function EagerByte(file: seq<byte>, h: Header, a: nat): byte
    requires h.off + h.filesz <= |file|
  {
    if h.vaddr <= a < h.vaddr + h.filesz then file[h.off + (a - h.vaddr)] else 0
  }

  /**
   Lazy loading equals eager loading: for every page of a segment that lies in the file, the page
   built on demand agrees byte for byte with the eager image.
   */
  lemma LazyIsEager(file: seq<byte>, h: Header, page: nat)
    requires h.load && Acceptable(h) && h.off + h.filesz <= |file| < UINT
    requires page % PGSIZE == 0 && h.vaddr <= page < h.vaddr + h.memsz
    ensures BuiltPage(file, Recorded(h), page).Some?
    ensures var p := BuiltPage(file, Recorded(h), page).value;
      |p| == PGSIZE && forall k :: 0 <= k < PGSIZE ==> p[k] == EagerByte(file, h, page + k)
  {
    var s := Recorded(h);
    var n := FileBytes(s, page);
    var from := h.off + (page - h.vaddr);
    assert s.filesz == h.filesz && (n > 0 ==> s.off == h.off);
    assert n == if page + PGSIZE <= h.vaddr + h.filesz then PGSIZE
                else if page <= h.vaddr + h.filesz then h.vaddr + h.filesz - page else 0;
    var p := BuiltPage(file, s, page).value;
    assert n > 0 ==> ReadI(file, (s.off + (page - s.start)) % UINT, n) == file[from..from + n];
    forall k | 0 <= k < PGSIZE ensures p[k] == EagerByte(file, h, page + k) {
      if k < n {
        assert p[k] == file[from..from + n][k];
      }
    }
  }

  predicate Covers(h: Header, a: nat)
  {
    h.load && h.vaddr <= a < h.vaddr + h.memsz
  }

  /** Memory after an eager loader has gone through all headers, the later ones winning. */
  ghost function EagerImage(file: seq<byte>, hs: seq<Header>, a: nat): byte
    requires forall i :: 0 <= i < |hs| && hs[i].load ==> hs[i].off + hs[i].filesz <= |file|
    decreases |hs|
  {
    if hs == [] then 0
    else if Covers(hs[|hs| - 1], a) then EagerByte(file, hs[|hs| - 1], a)
    else EagerImage(file, hs[..|hs| - 1], a)
  }

  lemma {:induction false} EagerImageOfOne(file: seq<byte>, hs: seq<Header>, i: nat, a: nat)
    requires forall j :: 0 <= j < |hs| && hs[j].load ==> hs[j].off + hs[j].filesz <= |file|
    requires i < |hs| && hs[i].load && Acceptable(hs[i])
    requires forall j :: 0 <= j < |hs| && j != i ==> !Covers(hs[j], a)
    ensures EagerImage(file, hs, a) == EagerByte(file, hs[i], a)
    decreases |hs|
  {
    var hs' := hs[..|hs| - 1];
    if i < |hs'| {
      EagerImageOfOne(file, hs', i, a);
    } else if !Covers(hs[i], a) {
      EagerImageOfNone(file, hs', a);
    }
  }

  lemma {:induction false} EagerImageOfNone(file: seq<byte>, hs: seq<Header>, a: nat)
    requires forall j :: 0 <= j < |hs| && hs[j].load ==> hs[j].off + hs[j].filesz <= |file|
    requires forall j :: 0 <= j < |hs| ==> !Covers(hs[j], a)
    ensures EagerImage(file, hs, a) == 0
    decreases |hs|
  {
    if hs != [] {
      EagerImageOfNone(file, hs[..|hs| - 1], a);
    }
  }

  /** One text and one data segment, in the file, on different pages. */
  ghost predicate TwoSegments(file: seq<byte>, hs: seq<Header>, t: nat, d: nat)
  {
    && OnlyOne(hs, t) && hs[t].exec && OnlyOne(hs, d) && !hs[d].exec
    && |file| < UINT
    && (forall j :: 0 <= j < |hs| && hs[j].load ==> Acceptable(hs[j]) && hs[j].off + hs[j].filesz <= |file|)
    && forall a: nat, b: nat :: Covers(hs[t], a) && Covers(hs[d], b) ==> a / PGSIZE != b / PGSIZE
  }

  /**
   For a program with one text and one data segment on different pages, the page a fault builds,
   choosing the segment from the recorded ranges, is that page of the eager image of all headers.
   */
  lemma FaultBuildsEagerPage(file: seq<byte>, hs: seq<Header>, t: nat, d: nat, i: nat, page: nat)
    requires TwoSegments(file, hs, t, d) && Scanned(hs).Some? && (i == t || i == d)
    requires page % PGSIZE == 0 && Covers(hs[i], page)
    ensures var m := Scanned(hs).value;
      var seg := if InSegment(m.text, page) then m.text else m.data;
      && seg == Recorded(hs[i])
      && BuiltPage(file, seg, page).Some?
      && |BuiltPage(file, seg, page).value| == PGSIZE
      && forall k :: 0 <= k < PGSIZE ==> BuiltPage(file, seg, page).value[k] == EagerImage(file, hs, page + k)
  {
    OneSegmentRecorded(hs, t);
    OneSegmentRecorded(hs, d);
    LazyIsEager(file, hs[i], page);
    var p := BuiltPage(file, Recorded(hs[i]), page).value;
    assert i == d ==> !Covers(hs[t], page);
    forall k | 0 <= k < PGSIZE ensures p[k] == EagerImage(file, hs, page + k) {
      assert (page + k) / PGSIZE == page / PGSIZE;
      forall j | 0 <= j < |hs| && j != i ensures !Covers(hs[j], page + k) {
        assert j != t && j != d ==> !hs[j].load;
      }
      EagerImageOfOne(file, hs, i, page + k);
    }
  }

  /** usertrap's loader for a newly allocated page: zero it, then read the file part. */
  method UserLoad(file: seq<byte>, m: Image, page: nat) returns (r: Option<seq<byte>>)
    requires InSegment(m.text, page) || m.data.start <= page
    ensures r == BuiltPage(file, if InSegment(m.text, page) then m.text else m.data, page)
  {
    var off, filesz := 0, 0;
    if InSegment(m.text, page) {
      off := (m.text.off + (page - m.text.start)) % UINT;
      filesz := if m.text.filesz > page - m.text.start then m.text.filesz - (page - m.text.start) else 0;
    } else {
      off := (m.data.off + (page - m.data.start)) % UINT;
      filesz := if m.data.filesz > page - m.data.start then m.data.filesz - (page - m.data.start) else 0;
    }
    if filesz > PGSIZE {
      filesz := PGSIZE;
    }
    var mem := Zeros(PGSIZE);
    if filesz > 0 {
      var got := ReadI(file, off, filesz);
      if |got| != filesz {
        return None;
      }
      assert mem[|got|..] == Zeros(PGSIZE - |got|);
      mem := got + mem[|got|..];
    }
    return Some(mem);
  }

  predicate InSegment(s: Segment, page: nat)
  {
    s.start <= page < s.end
  }

  /** vmfault's loader, which clips after choosing the segment from its own range tests. */
  method KernelLoad(file: seq<byte>, m: Image, sz: nat, page: nat) returns (r: Option<seq<byte>>)
    requires page < sz && (InSegment(m.text, page) || InSegment(m.data, page))
    ensures r == BuiltPage(file, if InSegment(m.text, page) then m.text else m.data, page)
  {
    var inText := page < sz && InSegment(m.text, page);
    var buf := Zeros(PGSIZE);
    var seg := if inText then m.text else m.data;
    var off := (seg.off + (page - seg.start)) % UINT;
    var filesz := if seg.filesz > page - seg.start then seg.filesz - (page - seg.start) else 0;
    if filesz > PGSIZE {
      filesz := PGSIZE;
    }
    if filesz > 0 {
      var got := ReadI(file, off, filesz);
      if |got| != filesz {
        return None;
      }
      assert buf[|got|..] == Zeros(PGSIZE - |got|);
      buf := got + buf[|got|..];
    }
    return Some(buf);
  }
}
