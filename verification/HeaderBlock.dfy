/** Header lists: one buffer that holds the lines, an index of where they start, and two in-place conversions.
    In edit mode the first byte of every line end is a NUL; packed, it is a CR or LF again. */
module HeaderBlock {
  import opened Text

  const HEADSBUFSIZE: nat := 4096

  /** A header line and how it ends: in CRLF, or in a bare LF, which is tolerated between lines. */
  datatype Line = Line(text: string, bare: bool)

  /** The end of a line, in edit mode or packed. */
  function Mark(line: Line, edit: bool): (m: string)
    ensures |m| == if line.bare then 1 else 2
  {
    if line.bare then (if edit then "\0" else "\n") else (if edit then "\0\n" else "\r\n")
  }

  /** The lines one after the other, with their ends. */
  function Joined(lines: seq<Line>, edit: bool): string {
    if lines == [] then "" else lines[0].text + Mark(lines[0], edit) + Joined(lines[1..], edit)
  }

  lemma {:induction false} JoinedAppend(a: seq<Line>, b: seq<Line>, edit: bool)
    ensures Joined(a + b, edit) == Joined(a, edit) + Joined(b, edit)
  {
    if a == [] {
      assert a + b == b;
    } else {
      var first, x, y := a[0].text + Mark(a[0], edit), Joined(a[1..], edit), Joined(b, edit);
      calc {
        Joined(a + b, edit);
        { assert (a + b)[0] == a[0] && (a + b)[1..] == a[1..] + b; }
        first + Joined(a[1..] + b, edit);
        { JoinedAppend(a[1..], b, edit); }
        first + (x + y);
        first + x + y;
      }
    }
  }

  lemma JoinedOne(line: Line, edit: bool)
    ensures Joined([line], edit) == line.text + Mark(line, edit)
  {
    assert [line][1..] == [] && Joined([], edit) == "";
  }

  /** The lines around line `k`. */
  lemma JoinedAt(lines: seq<Line>, k: nat, edit: bool)
    requires k < |lines|
    ensures Joined(lines[..k + 1], edit) == Joined(lines[..k], edit) + (lines[k].text + Mark(lines[k], edit))
    ensures Joined(lines[k..], edit) == lines[k].text + Mark(lines[k], edit) + Joined(lines[k + 1..], edit)
  {
    assert lines[..k + 1] == lines[..k] + [lines[k]];
    JoinedAppend(lines[..k], [lines[k]], edit);
    JoinedOne(lines[k], edit);
    assert lines[k..][1..] == lines[k + 1..];
  }

  /** Packing changes no position. */
  lemma {:induction false} JoinedLength(lines: seq<Line>)
    ensures |Joined(lines, true)| == |Joined(lines, false)|
  {
    if lines != [] { JoinedLength(lines[1..]); }
  }

  /** Where line `k` starts. */
  function Offset(lines: seq<Line>, k: nat): nat
    requires k <= |lines|
  {
    |Joined(lines[..k], true)|
  }

  function Offsets(lines: seq<Line>): (s: seq<nat>)
    ensures |s| == |lines|
  {
    seq(|lines|, k requires 0 <= k < |lines| => Offset(lines, k))
  }

  predicate NulFree(text: string) {
    forall i :: 0 <= i < |text| ==> text[i] != '\0'
  }

  /** A logical header line: not empty, free of NULs, and with CR and LF only in folds, where a CRLF is followed
      by a space or a tab. */
  predicate Logical(text: string) {
    && text != "" && NulFree(text) && !IsBlank(text[0]) && text[0] != '\n'
    && (forall i :: 0 <= i < |text| && text[i] == '\r' ==> i + 2 < |text| && text[i + 1] == '\n' && IsBlank(text[i + 2]))
    && (forall i :: 0 <= i < |text| && text[i] == '\n' ==> i + 1 < |text| && IsBlank(text[i + 1]))
  }

  /** A block as it arrives: logical lines, the last of them ended by CRLF. */
  predicate WellFormed(lines: seq<Line>) {
    lines != [] && !lines[|lines| - 1].bare && forall i :: 0 <= i < |lines| ==> Logical(lines[i].text)
  }

  /** What the buffer of a header list in edit mode can hold: NUL-free lines, none of them running into the LF of
      the next. */
  predicate Editable(lines: seq<Line>) {
    && (forall i :: 0 <= i < |lines| ==> NulFree(lines[i].text))
    && (forall i :: 0 <= i < |lines| && lines[i].bare ==>
          i + 1 < |lines| && lines[i + 1].text != "" && lines[i + 1].text[0] != '\n')
  }

  lemma WellFormedIsEditable(lines: seq<Line>)
    requires WellFormed(lines)
    ensures Editable(lines)
  {
    assert forall i :: 0 <= i < |lines| ==> Logical(lines[i].text);
  }

  // ----- the scan of `ci_headers_unpack`

  /** A block whose last line has been closed already, as `ci_headers_unpack` does before it looks at the rest. */
  function Closing(lines: seq<Line>): string {
    if |lines| == 0 then "" else lines[0].text + Mark(lines[0], |lines| == 1) + Closing(lines[1..])
  }

  lemma {:induction false} ClosingOfBlock(lines: seq<Line>)
    requires lines != [] && !lines[|lines| - 1].bare
    ensures var b := Joined(lines, false);
            |b| >= 2 && Closing(lines) == b[|b| - 2 := '\0'] && b[|b| - 2] == '\r'
  {
    var b := Joined(lines, false);
    if |lines| == 1 {
      assert lines == [lines[0]];
      JoinedOne(lines[0], false);
    } else {
      ClosingOfBlock(lines[1..]);
      var c := Joined(lines[1..], false);
      assert b == lines[0].text + Mark(lines[0], false) + c;
    }
  }

  lemma ClosingAt(lines: seq<Line>, k: nat)
    requires k < |lines|
    ensures Closing(lines[k..]) == lines[k].text + Mark(lines[k], k + 1 == |lines|) + Closing(lines[k + 1..])
  {
    assert lines[k..][0] == lines[k] && lines[k..][1..] == lines[k + 1..];
  }

  /** Whether a header line ends at `i`: at a CRLF or a LF that does not start a fold. */
  predicate EndsAt(b: string, i: nat, ebuf: nat)
    requires i < ebuf && ebuf + 2 <= |b|
  {
    if b[i] == '\r' && b[i + 1] == '\n' then i + 2 >= ebuf || !IsBlank(b[i + 2])
    else b[i] == '\n' && !IsBlank(b[i + 1])
  }

  /** The buffer while line `k` is being scanned: the lines before it are closed. */
  ghost predicate Scanning(lines: seq<Line>, k: nat, b: string) {
    k < |lines| && b == Joined(lines[..k], true) + Closing(lines[k..])
  }

  /** What the scan sees of line `k`. */
  lemma LineView(lines: seq<Line>, k: nat, b: string)
    requires Scanning(lines, k, b) && WellFormed(lines)
    ensures var s, t, m := Offset(lines, k), lines[k].text, Mark(lines[k], k + 1 == |lines|);
            && |b| == s + |t| + |m| + |Closing(lines[k + 1..])|
            && (forall o :: 0 <= o < |t| ==> b[s + o] == t[o])
            && (forall o :: 0 <= o < |m| ==> b[s + |t| + o] == m[o])
            && if k + 1 == |lines| then |b| == s + |t| + 2
               else |b| >= s + |t| + |m| + 3 && b[s + |t| + |m|] == lines[k + 1].text[0]
  {
    hide Mark;
    ClosingAt(lines, k);
    if k + 1 < |lines| { NextLine(lines, k + 1); }
  }

  lemma NextLine(lines: seq<Line>, k: nat)
    requires k < |lines| && WellFormed(lines)
    ensures |Closing(lines[k..])| >= 3 && Closing(lines[k..])[0] == lines[k].text[0]
    decreases |lines| - k
  {
    ClosingAt(lines, k);
    assert Logical(lines[k].text);
    if k + 1 < |lines| { NextLine(lines, k + 1); }
  }

  /** No line ends inside a logical line. */
  lemma NoEndInside(lines: seq<Line>, k: nat, b: string, o: nat)
    requires Scanning(lines, k, b) && WellFormed(lines) && o < |lines[k].text|
    ensures var s := Offset(lines, k);
            s + o < |b| - 2 && b[s + o] != '\0' && !EndsAt(b, s + o, |b| - 2)
  {
    hide Joined, Closing, Offset;
    LineView(lines, k, b);
    var s, t := Offset(lines, k), lines[k].text;
    assert Logical(t);
    assert b[s + o] == t[o];
    assert o + 1 < |t| ==> b[s + (o + 1)] == t[o + 1];
    assert o + 2 < |t| ==> b[s + (o + 2)] == t[o + 2];
  }

  /** Every line but the last ends at its mark. */
  lemma EndAtMark(lines: seq<Line>, k: nat, b: string)
    requires Scanning(lines, k, b) && WellFormed(lines) && k + 1 < |lines|
    ensures var e := Offset(lines, k) + |lines[k].text|;
            && e + 2 < |b| && EndsAt(b, e, |b| - 2) && (b[e + 1] == '\n' <==> !lines[k].bare)
  {
    hide Joined, Closing, Offset;
    LineView(lines, k, b);
    var e, m := Offset(lines, k) + |lines[k].text|, Mark(lines[k], false);
    assert Logical(lines[k + 1].text);
    assert b[e + 0] == m[0];
    assert !lines[k].bare ==> b[e + 1] == m[1];
  }

  /** Closing a line leads to the next. */
  lemma CloseLine(lines: seq<Line>, k: nat, b: string)
    requires Scanning(lines, k, b) && k + 1 < |lines|
    ensures var e := Offset(lines, k) + |lines[k].text|;
            e < |b| && Scanning(lines, k + 1, b[e := '\0']) && Offset(lines, k + 1) == e + |Mark(lines[k], false)|
  {
    var e := Offset(lines, k) + |lines[k].text|;
    ClosingAt(lines, k);
    JoinedAt(lines, k, true);
    var x, y, l := Joined(lines[..k], true), Closing(lines[k + 1..]), lines[k];
    assert b == x + (l.text + Mark(l, false) + y);
    assert b[e := '\0'] == x + (l.text + Mark(l, true)) + y;
  }

  /** The state of the scan at `str`, within line `k`. */
  ghost predicate Progress(lines: seq<Line>, k: nat, b: string, headers: seq<nat>, str: nat) {
    && WellFormed(lines) && Scanning(lines, k, b) && headers == Offsets(lines)[..k + 1]
    && Offset(lines, k) <= str <= Offset(lines, k) + |lines[k].text|
  }

  /** After the last CR has been closed, the scan starts at the first line. */
  lemma StartScan(lines: seq<Line>, b: string)
    requires WellFormed(lines) && b == Closing(lines)
    ensures Progress(lines, 0, b, [0], 0)
  {
    assert lines[..0] == [] && lines[0..] == lines && Joined([], true) == "";
    assert Offsets(lines)[0] == Offset(lines, 0);
  }

  /** One step of the scan: on to the next byte, or over the end of the line to the second byte of the next. */
  lemma ScanStep(lines: seq<Line>, k: nat, b: string, headers: seq<nat>, str: nat)
    requires Progress(lines, k, b, headers, str) && str + 2 < |b|
    ensures if EndsAt(b, str, |b| - 2)
            then var next := if b[str + 1] == '\n' then str + 2 else str + 1;
                 Progress(lines, k + 1, b[str := '\0'], headers + [next], next + 1)
            else b[str] != '\0' && Progress(lines, k, b, headers, str + 1)
  {
    hide Joined, Closing, EndsAt, Offset;
    if str < Offset(lines, k) + |lines[k].text| {
      NoEndInside(lines, k, b, str - Offset(lines, k));
    } else {
      LineView(lines, k, b);
      EndAtMark(lines, k, b);
      CloseLine(lines, k, b);
      assert Logical(lines[k + 1].text);
      assert Offsets(lines)[k + 1] == Offset(lines, k + 1);
    }
  }

  /** The scan stops at the end of the last line. */
  lemma EndScan(lines: seq<Line>, k: nat, b: string, headers: seq<nat>, str: nat)
    requires Progress(lines, k, b, headers, str) && str + 2 >= |b|
    ensures b == Joined(lines, true) && headers == Offsets(lines)
  {
    hide Logical;
    LineView(lines, k, b);
    JoinedAt(lines, k, true);
    ClosingAt(lines, k);
    assert lines[k + 1..] == [] && lines[..k + 1] == lines;
  }

  // ----- packing

  /** The buffer when the first `k` lines have their CR or LF back. */
  function HalfPacked(lines: seq<Line>, k: nat): string
    requires k <= |lines|
  {
    Joined(lines[..k], false) + Joined(lines[k..], true)
  }

  /** The half-packed buffer around line `k`. */
  lemma PackSplit(lines: seq<Line>, k: nat)
    requires k < |lines|
    ensures var x, y, l := Joined(lines[..k], false), Joined(lines[k + 1..], true), lines[k];
            && |x| == Offset(lines, k)
            && HalfPacked(lines, k) == x + (l.text + Mark(l, true) + y)
            && HalfPacked(lines, k + 1) == x + (l.text + Mark(l, false) + y)
  {
    hide Mark;
    JoinedAt(lines, k, false);
    JoinedAt(lines, k, true);
    JoinedLength(lines[..k]);
    var x, y, l := Joined(lines[..k], false), Joined(lines[k + 1..], true), lines[k];
    assert x + (l.text + Mark(l, false)) + y == x + (l.text + Mark(l, false) + y);
  }

  /** What `ci_headers_pack` sees of line `k`, and what its write leads to. */
  lemma PackStep(lines: seq<Line>, k: nat, b: string)
    requires k < |lines| && Editable(lines) && b == HalfPacked(lines, k)
    ensures var s, e := Offset(lines, k), Offset(lines, k) + |lines[k].text|;
            && e + 1 < |b| && b[s..e] == lines[k].text && b[e] == '\0' && (b[e + 1] == '\n' <==> !lines[k].bare)
            && b[e := if lines[k].bare then '\n' else '\r'] == HalfPacked(lines, k + 1)
  {
    hide HalfPacked, Joined, Offset;
    PackSplit(lines, k);
    var x, y := Joined(lines[..k], false), Joined(lines[k + 1..], true);
    if lines[k].bare {
      JoinedAt(lines, k + 1, true);
      assert |y| >= 1 && y[0] == lines[k + 1].text[0];
    }
    EndRestored(x, lines[k], y);
  }

  /** The line end of one line, between what is before and behind it. */
  lemma EndRestored(x: string, l: Line, y: string)
    requires l.bare ==> y != "" && y[0] != '\n'
    ensures var b, e := x + (l.text + Mark(l, true) + y), |x| + |l.text|;
            && e + 1 < |b| && b[|x|..e] == l.text && b[e] == '\0' && (b[e + 1] == '\n' <==> !l.bare)
            && b[e := if l.bare then '\n' else '\r'] == x + (l.text + Mark(l, false) + y)
  {
  }

  lemma PackEnds(lines: seq<Line>)
    ensures HalfPacked(lines, 0) == Joined(lines, true) && HalfPacked(lines, |lines|) == Joined(lines, false)
  {
    assert lines[..0] == [] && lines[0..] == lines && lines[..|lines|] == lines && lines[|lines|..] == [];
  }

  class Headers {
    var buf: array<char>
    var headers: seq<nat>      // the index, as offsets into buf
    var bufused: nat
    var packed: bool

    ghost predicate Valid()
      reads this
    {
      bufused + 2 <= buf.Length
    }

    /** Edit mode: the buffer holds `lines`, closed by NULs, and the index finds them. */
    ghost predicate Holds(lines: seq<Line>)
      reads this, buf
    {
      Valid() && !packed && Editable(lines) && buf[..bufused] == Joined(lines, true) && headers == Offsets(lines)
    }

    /** The LF of the closing empty line is in place behind the lines. */
    ghost predicate Terminated()
      reads this, buf
    {
      Valid() && buf[bufused + 1] == '\n'
    }

    constructor ()
      ensures Holds([]) && fresh(buf)
    {
      buf := new char[HEADSBUFSIZE](_ => '\0');
      headers, bufused, packed := [], 0, false;
      new;
      assert buf[..0] == "";
    }

    /** The test for the end of a header. */
    method EndsHere(str: nat, ebuf: nat) returns (eoh: bool)
      requires str < ebuf && ebuf + 2 == bufused <= buf.Length
      ensures eoh == EndsAt(buf[..bufused], str, ebuf)
    {
      eoh := false;
      if buf[str] == '\r' && buf[str + 1] == '\n' {
        eoh := str + 2 >= ebuf || !IsBlank(buf[str + 2]);
      } else if buf[str] == '\n' && !IsBlank(buf[str + 1]) {
        eoh := true;
      }
    }

    /** One turn of the scan, which keeps to the lines if the block is a good one. */
    method ScanOn(str: nat, ebuf: nat, ghost good: bool, ghost lines: seq<Line>, ghost k: nat)
      returns (str': nat, ghost k': nat)
      requires str < ebuf && ebuf + 2 == bufused <= buf.Length && buf[ebuf] == '\0'
      requires good ==> Progress(lines, k, buf[..bufused], headers, str)
      modifies this`headers, buf
      ensures str < str' <= ebuf + 1 && buf[ebuf] == '\0'
      ensures forall i :: bufused <= i < buf.Length ==> buf[i] == old(buf[i])
      ensures good ==> Progress(lines, k', buf[..bufused], headers, str')
    {
      hide Progress, EndsAt;
      ghost var b := buf[..bufused];
      if good { ScanStep(lines, k, b, headers, str); }
      var eoh := EndsHere(str, ebuf);
      str', k' := str, k;
      if eoh {
        buf[str] := '\0';
        assert buf[..bufused] == b[str := '\0'];
        str' := str + 1;
        if buf[str'] == '\n' { str' := str' + 1; }
        headers := headers + [str'];
        k' := k + 1;
      } else if buf[str] == '\0' {
        buf[str] := ' ';
      }
      str' := str' + 1;
    }

    /** `ci_headers_unpack`; `true` stands for EC_100, `false` for EC_400. */
    method Unpack(ghost lines: seq<Line>) returns (ok: bool)
      requires Valid()
      modifies this`headers, this`packed, buf
      ensures ok <==> old(bufused >= 2 && (buf[bufused - 2] == '\r' || buf[bufused - 2] == '\n'))
      ensures WellFormed(lines) && old(buf[..bufused]) == Joined(lines, false) ==> ok && Holds(lines)
      ensures forall i :: bufused <= i < buf.Length ==> buf[i] == old(buf[i])
    {
      hide Joined, WellFormed, Editable, Progress, Offsets, EndsAt;
      ghost var good := WellFormed(lines) && buf[..bufused] == Joined(lines, false);
      if good { WellFormedEnd(lines); }
      if bufused < 2 { return false; }
      var ebuf := bufused - 2;
      if buf[ebuf] != '\r' && buf[ebuf] != '\n' { return false; }
      buf[ebuf] := '\0';
      headers := [0];
      var str := 0;
      ghost var k := 0;
      if good { StartScan(lines, buf[..bufused]); }
      while str < ebuf
        invariant 0 <= str <= ebuf + 1 && buf[ebuf] == '\0'
        invariant forall i :: bufused <= i < buf.Length ==> buf[i] == old(buf[i])
        invariant good ==> Progress(lines, k, buf[..bufused], headers, str)
        decreases ebuf - str
      {
        str, k := ScanOn(str, ebuf, good, lines, k);
      }
      packed := false;
      ok := true;
      if good { EndScan(lines, k, buf[..bufused], headers, str); }
    }

    /** `strlen` of the header at `from`. */
    method Strlen(from: nat, ghost text: string) returns (len: nat)
      requires from + |text| < buf.Length
      requires buf[from..from + |text|] == text && buf[from + |text|] == '\0' && NulFree(text)
      ensures len == |text|
    {
      assert forall i :: 0 <= i < |text| ==> text[i] == buf[from + i] && text[i] != '\0';
      len := 0;
      while buf[from + len] != '\0'
        invariant len <= |text|
        decreases |text| - len
      {
        len := len + 1;
      }
    }

    /** `ci_headers_pack`. Without the LF behind the lines the closing empty line is a bare LF. */
    method Pack(ghost lines: seq<Line>)
      requires Holds(lines)
      modifies this`bufused, this`packed, buf
      ensures packed && headers == old(headers) && bufused <= buf.Length
      ensures bufused == old(bufused) + if old(Terminated()) then 2 else 1
      ensures buf[..bufused] == Joined(lines, false) + if old(Terminated()) then CRLF else "\n"
    {
      hide Joined, HalfPacked, Offset;
      PackEnds(lines);
      for i := 0 to |headers|
        invariant bufused == old(bufused) && buf[..bufused] == HalfPacked(lines, i)
        invariant buf[bufused + 1] == old(buf[bufused + 1])
      {
        ghost var b := buf[..bufused];
        PackStep(lines, i, b);
        var start := headers[i];
        ghost var end := start + |lines[i].text|;
        assert start == Offset(lines, i);
        assert forall j :: start <= j < end ==> buf[j] == b[j];
        assert buf[start..end] == b[start..end];
        var len := Strlen(start, lines[i].text);
        if buf[start + len + 1] == '\n' {
          buf[start + len] := '\r';
        } else {
          buf[start + len] := '\n';
        }
        assert buf[..bufused] == b[end := if lines[i].bare then '\n' else '\r'];
      }
      if buf[bufused + 1] == '\n' {
        buf[bufused] := '\r';
        bufused := bufused + 2;
      } else {
        buf[bufused] := '\n';
        bufused := bufused + 1;
      }
      packed := true;
      assert buf[..old(bufused)] == Joined(lines, false);
    }

    /** Unpacking a block and packing it again restores its bytes and completes the closing empty line. */
    method UnpackThenPack(ghost lines: seq<Line>) returns (ok: bool)
      requires Terminated() && WellFormed(lines) && buf[..bufused] == Joined(lines, false)
      modifies this, buf
      ensures ok && buf == old(buf) && bufused == old(bufused) + 2
      ensures buf[..bufused] == old(buf[..bufused]) + CRLF
    {
      hide WellFormed, Joined;
      ok := Unpack(lines);
      Pack(lines);
    }

    /** `ci_headers_reset`. */
    method Reset()
      requires Valid()
      modifies this`headers, this`bufused, this`packed
      ensures Holds([]) && buf[..] == old(buf[..])
    {
      packed, headers, bufused := false, [], 0;
      assert buf[..0] == "";
    }

    /** `realloc` of the buffer to at least `needed` bytes, in steps of HEADSBUFSIZE; `grown` says whether it moved. */
    method Reserve(needed: nat, memory: bool) returns (ok: bool, grown: bool)
      requires Valid()
      modifies this`buf
      ensures Valid() && bufused == old(bufused) && buf[..bufused] == old(buf[..bufused])
      ensures ok ==> needed <= buf.Length
      ensures !grown ==> buf == old(buf)
      ensures grown ==> fresh(buf)
      ensures !ok ==> !grown && !memory
    {
      var len := buf.Length;
      while len < needed
        invariant len >= buf.Length
      {
        len := len + HEADSBUFSIZE;
      }
      grown := len > buf.Length;
      if grown {
        if !memory { return false, false; }
        var bigger := new char[len];
        forall i | 0 <= i < buf.Length { bigger[i] := buf[i]; }
        buf := bigger;
      }
      ok := true;
    }

    /** The index is computed anew from the lengths of the lines, which must all end in CRLF. */
    method Reindex(count: nat, ghost lines: seq<Line>)
      requires Valid() && count == |lines| && AllCrlf(lines) && buf[..bufused] == Joined(lines, true)
      modifies this`headers
      ensures headers == Offsets(lines)
    {
      hide Joined, Offset;
      var index := [];
      var next := 0;
      assert Offset(lines, 0) == 0 by { OffsetZero(lines); }
      for i := 0 to count
        invariant |index| == i && next == Offset(lines, i)
        invariant forall j :: 0 <= j < i ==> index[j] == Offset(lines, j)
      {
        LineAt(lines, i, buf[..bufused]);
        ghost var end := next + |lines[i].text|;
        assert forall j :: next <= j < end ==> buf[j] == buf[..bufused][j];
        assert buf[next..end] == buf[..bufused][next..end];
        var len := Strlen(next, lines[i].text);
        index := index + [next];
        next := next + len + 2;
      }
      headers := index;
    }

    /** `ci_headers_add`; it can fail only when packed or out of memory for the index or the buffer. */
    method Add(text: string, indexMemory: bool, memory: bool, ghost lines: seq<Line>) returns (ok: bool)
      requires NulFree(text) && Valid() && (!packed ==> Holds(lines) && AllCrlf(lines))
      modifies this, buf
      ensures old(packed) ==> !ok
      ensures !ok ==> (old(packed) || !indexMemory || !memory) && unchanged(this) && unchanged(buf)
      ensures ok ==> Holds(lines + [Line(text, false)]) && Terminated()
      ensures buf == old(buf) || fresh(buf)
    {
      hide Joined, Offsets, NulFree, Editable;
      if packed || !indexMemory { return false; }
      AddedLine(lines, text);
      var grown;
      ok, grown := Reserve(bufused + |text| + 4, memory);
      if !ok { return; }
      if grown { Reindex(|headers|, lines); }
      headers := headers + [bufused];
      Append(text);
    }

    /** The line goes behind the others, with its end and the LF of the closing empty line. */
    method Append(text: string)
      requires bufused + |text| + 4 <= buf.Length
      modifies this`bufused, buf
      ensures Valid() && buf[..bufused] == old(buf[..bufused]) + (text + "\0\n") && Terminated()
    {
      var at := bufused;
      CopyIn(at, text + "\0\n");
      buf[at + |text| + 3] := '\n';
      bufused := at + |text| + 2;
      Behind(buf[..], at, text + "\0\n");
    }

    method CopyIn(at: nat, text: string)
      requires at + |text| <= buf.Length
      modifies buf
      ensures buf[at..at + |text|] == text && buf[..at] == old(buf[..at])
      ensures forall i :: at + |text| <= i < buf.Length ==> buf[i] == old(buf[i])
    {
      forall i | 0 <= i < |text| { buf[at + i] := text[i]; }
    }

    /** `ci_headers_addheaders`: the bytes of the other list are appended and the index is computed anew. */
    method AddHeaders(other: Headers, indexMemory: bool, memory: bool, ghost lines: seq<Line>, ghost more: seq<Line>)
      returns (ok: bool)
      requires other != this && other.buf != buf && Valid()
      requires other.Holds(more) && AllCrlf(more) && (!packed ==> Holds(lines) && AllCrlf(lines))
      modifies this, buf
      ensures old(packed) ==> !ok
      ensures !ok ==> (old(packed) || !indexMemory || !memory) && unchanged(this) && unchanged(buf)
      ensures ok ==> Holds(lines + more) && (other.Terminated() ==> Terminated())
      ensures buf == old(buf) || fresh(buf)
    {
      hide Joined, Offsets, NulFree, Editable;
      if packed || !indexMemory { return false; }
      var count := |headers| + |other.headers|;
      var grown;
      ok, grown := Reserve(bufused + other.bufused + 2, memory);
      if !ok { return; }
      var at, n := bufused, other.bufused;
      CopyIn(at, other.buf[..n + 2]);
      assert buf[at + n + 1] == buf[at..at + (n + 2)][n + 1];
      assert other.buf[..n + 2][n + 1] == other.buf[n + 1];
      PartsOf(buf[..], at, n + 2, 0, n);
      assert buf[at..at + n] == other.buf[..n];
      Behind(buf[..], at, other.buf[..n]);
      bufused := at + n;
      JoinedAppend(lines, more, true);
      AppendedLines(lines, more);
      Reindex(count, lines + more);
    }
  }

  predicate Plain(s: string) {
    forall i :: 0 <= i < |s| ==> s[i] !in {'\0', '\r', '\n'}
  }

  /** A line with folds is one logical line: a CRLF that a space or a tab follows does not end it. */
  lemma FoldsAreLogical(a: string, c: char, b: string)
    requires Plain(a) && Plain(b) && a != "" && a[0] !in {32 as char, 9 as char} && c in {32 as char, 9 as char}
    ensures Logical(a) && Logical(a + "\r\n" + [c] + b)
  {
    var t := a + "\r\n" + [c] + b;
    assert forall i :: 0 <= i < |a| ==> t[i] == a[i];
    assert forall i :: |a| + 3 <= i < |t| ==> t[i] == b[i - |a| - 3];
    assert t[|a|] == '\r' && t[|a| + 1] == '\n' && t[|a| + 2] == c;
  }

  /** Lines on the wire and in edit mode. */
  lemma LinesLookLike(a: string, b: string)
    ensures Joined([Line(a, false), Line(b, false)], false) == a + "\r\n" + b + "\r\n"
    ensures Joined([Line(a, false), Line(b, false)], true) == a + "\0\n" + b + "\0\n"
    ensures Joined([Line(a, true), Line(b, false)], false) == a + "\n" + b + "\r\n"
    ensures Joined([Line(a, true), Line(b, false)], true) == a + "\0" + b + "\0\n"
  {
    forall bare: bool, edit: bool
      ensures Joined([Line(a, bare), Line(b, false)], edit) == a + Mark(Line(a, bare), edit) + b + Mark(Line(b, false), edit)
    {
      var first, second := [Line(a, bare)], [Line(b, false)];
      assert [Line(a, bare), Line(b, false)] == first + second;
      JoinedAppend(first, second, edit);
      JoinedOne(first[0], edit);
      JoinedOne(second[0], edit);
    }
  }

  /** The index in edit mode: as many strings as lines, each of them the text of its line up to a NUL. */
  lemma IndexFinds(h: Headers, lines: seq<Line>, k: nat)
    requires h.Holds(lines) && k < |lines|
    ensures |h.headers| == |lines|
    ensures var at, end := h.headers[k], h.headers[k] + |lines[k].text|;
            end < h.bufused <= h.buf.Length && h.buf[at..end] == lines[k].text && h.buf[end] == '\0'
  {
    hide Editable;
    var b := h.buf[..h.bufused];
    TextAt(lines, k, b);
    var at, end := Offset(lines, k), Offset(lines, k) + |lines[k].text|;
    assert h.buf[at..end] == b[at..end] && h.buf[end] == b[end];
  }

  lemma TextAt(lines: seq<Line>, k: nat, b: string)
    requires k < |lines| && b == Joined(lines, true)
    ensures var s, e := Offset(lines, k), Offset(lines, k) + |lines[k].text|;
            e < |b| && b[s..e] == lines[k].text && b[e] == '\0'
  {
    hide Joined;
    assert lines == lines[..k] + lines[k..];
    JoinedAppend(lines[..k], lines[k..], true);
    JoinedAt(lines, k, true);
  }

  lemma WellFormedEnd(lines: seq<Line>)
    requires WellFormed(lines)
    ensures var b := Joined(lines, false);
            |b| >= 2 && Closing(lines) == b[|b| - 2 := '\0'] && b[|b| - 2] == '\r' && Editable(lines)
  {
    ClosingOfBlock(lines);
    WellFormedIsEditable(lines);
  }

  predicate AllCrlf(lines: seq<Line>) {
    forall i :: 0 <= i < |lines| ==> !lines[i].bare && NulFree(lines[i].text)
  }

  lemma OffsetZero(lines: seq<Line>)
    ensures Offset(lines, 0) == 0
  {
    assert lines[..0] == [];
  }

  /** A line in edit mode and the start of the next. */
  lemma LineAt(lines: seq<Line>, k: nat, b: string)
    requires k < |lines| && AllCrlf(lines) && b == Joined(lines, true)
    ensures var s, e := Offset(lines, k), Offset(lines, k) + |lines[k].text|;
            e + 2 <= |b| && b[s..e] == lines[k].text && b[e] == '\0' && Offset(lines, k + 1) == e + 2
  {
    hide Joined;
    assert lines == lines[..k] + lines[k..];
    JoinedAppend(lines[..k], lines[k..], true);
    JoinedAt(lines, k, true);
  }

  lemma AddedLine(lines: seq<Line>, text: string)
    requires NulFree(text) && AllCrlf(lines)
    ensures var all := lines + [Line(text, false)];
            && AllCrlf(all) && Editable(all) && Joined(all, true) == Joined(lines, true) + (text + "\0\n")
            && Offsets(all) == Offsets(lines) + [|Joined(lines, true)|]
  {
    var last := [Line(text, false)];
    var all := lines + last;
    JoinedAppend(lines, last, true);
    JoinedOne(last[0], true);
    assert all[..|lines|] == lines;
    assert forall k :: 0 <= k <= |lines| ==> all[..k] == lines[..k];
  }

  lemma AppendedLines(lines: seq<Line>, more: seq<Line>)
    requires AllCrlf(lines) && AllCrlf(more)
    ensures AllCrlf(lines + more) && Editable(lines + more)
  {
  }
}
