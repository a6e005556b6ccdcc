/** Two ways to cut a header off a stream at its first empty line while it is still arriving: the server's
    `ci_read_icap_header`, which searches every read with a window of three old bytes, and the client's
    `client_parse_icap_header`, which holds the last three bytes back. */
module HeaderReader {
  import opened Common

  const ICAP_HEADER_READSIZE: nat := 512

  /** The end of a header, CRLFCRLF, lies at `p`. */
  predicate EohAt(s: string, p: int) {
    0 <= p && p + 4 <= |s| && s[p] == '\r' && s[p + 1] == '\n' && s[p + 2] == '\r' && s[p + 3] == '\n'
  }

  /** `p` is the first end of a header in `s`. */
  ghost predicate FirstEoh(s: string, p: int) {
    EohAt(s, p) && forall q :: 0 <= q < p ==> !EohAt(s, q)
  }

  ghost predicate NoEoh(s: string) {
    forall q :: 0 <= q < |s| ==> !EohAt(s, q)
  }

  /** The first end of a header stays the first when more bytes arrive. */
  lemma FirstEohStable(s: string, more: string, p: int)
    requires FirstEoh(s, p)
    ensures FirstEoh(s + more, p)
  {
    assert forall q :: 0 <= q <= p ==> EohAt(s + more, q) == EohAt(s, q);
  }

  /** A header has been cut off a stream after `consumed` of its bytes. */
  ghost predicate Cut(stream: string, consumed: nat, header: string, leftover: string) {
    consumed <= |stream| && exists p: nat ::
      FirstEoh(stream[..consumed], p) && header == stream[..p + 2] && leftover == stream[p + 4..consumed]
  }

  /** Whatever the two readers have consumed, they agree on the header and on what follows it in the stream. */
  lemma CutsAgree(stream: string, a: nat, headerA: string, leftoverA: string, b: nat, headerB: string, leftoverB: string)
    requires Cut(stream, a, headerA, leftoverA) && Cut(stream, b, headerB, leftoverB)
    ensures headerA == headerB && leftoverA + stream[a..] == leftoverB + stream[b..]
    ensures |headerA| + 2 + |leftoverA| == a && |headerB| + 2 + |leftoverB| == b
  {
    var p: nat :| FirstEoh(stream[..a], p) && headerA == stream[..p + 2] && leftoverA == stream[p + 4..a];
    var q: nat :| FirstEoh(stream[..b], q) && headerB == stream[..q + 2] && leftoverB == stream[q + 4..b];
    FirstEohStable(stream[..a], stream[a..], p);
    FirstEohStable(stream[..b], stream[b..], q);
    assert stream[..a] + stream[a..] == stream == stream[..b] + stream[b..];
    assert p == q;
    assert leftoverA + stream[a..] == stream[p + 4..] == leftoverB + stream[b..];
  }

  /** The stream has a header, and there are reads enough to see its end, whatever they bring. */
  ghost predicate Suffices(stream: string, schedule: seq<nat>) {
    exists p: nat :: FirstEoh(stream, p) && p + 4 <= Positives(schedule)
  }

  /** A reader that has seen that much has seen the end. */
  lemma EndIsSeen(stream: string, schedule: seq<nat>, consumed: nat)
    requires consumed <= |stream| && NoEoh(stream[..consumed])
    requires consumed == |stream| || consumed >= Positives(schedule)
    ensures !Suffices(stream, schedule)
  {
    if Suffices(stream, schedule) {
      var p: nat :| FirstEoh(stream, p) && p + 4 <= Positives(schedule);
      assert EohAt(stream[..consumed], p);
    }
  }

  // ----- the server

  /** The search after a read: the last `bytes` bytes of `buf` are new, and `start` of the old ones are looked at
      again. Returns the position of the end of the header, or -1. */
  method SearchNew(buf: string, end: nat, bytes: nat, start: nat) returns (p: int)
    requires end + bytes == |buf| && start <= end
    requires forall q :: 0 <= q < end - start ==> !EohAt(buf, q)
    ensures p >= 0 ==> FirstEoh(buf, p)
    ensures p < 0 ==> NoEoh(buf)
  {
    var i: int := end - start;
    while i < |buf| - 3
      invariant end - start <= i
      invariant forall q :: 0 <= q < i ==> !EohAt(buf, q)
    {
      FourBytes(buf, i);
      if buf[i..i + 4] == "\r\n\r\n" { return i; }
      i := i + 1;
    }
    p := -1;
  }

  lemma FourBytes(s: string, p: nat)
    requires p + 4 <= |s|
    ensures EohAt(s, p) <==> s[p..p + 4] == "\r\n\r\n"
  {
    var t := s[p..p + 4];
    assert t[0] == s[p] && t[1] == s[p + 1] && t[2] == s[p + 2] && t[3] == s[p + 3];
  }

  /** `ci_read_icap_header`. `prefetch` holds pipelined bytes of an earlier read; the connection carries the rest of
      the stream and offers the numbers of bytes in `schedule`, then times out. */
  method ReadIcapHeader(stream: string, prefetch: nat, schedule: seq<nat>)
    returns (found: bool, header: string, leftover: string, consumed: nat)
    requires prefetch <= |stream|
    ensures found ==> Cut(stream, consumed, header, leftover)
    ensures !found ==> consumed <= |stream| && NoEoh(stream[..consumed])
    ensures !found ==> consumed == |stream| || consumed >= Positives(schedule)
    ensures Suffices(stream, schedule) ==> found
  {
    hide Positives;
    PositivesAll(schedule);
    found, header, leftover, consumed := false, "", "", 0;
    var buf, start: nat, round, bytes: nat := "", 0, 0, 0;
    var prefetched := prefetch > 0;
    while prefetched || round < |schedule|
      invariant consumed <= |stream| && buf == stream[..consumed] && NoEoh(buf)
      invariant start == if |buf| > 3 then 3 else |buf|
      invariant round <= |schedule| && (prefetched ==> buf == "" && round == 0)
      invariant consumed == |stream| || consumed >= Positives(schedule[..round])
      decreases |schedule| - round, prefetched
    {
      if prefetched {
        bytes, prefetched := prefetch, false;
      } else {
        bytes := schedule[round];
        bytes := if bytes > ICAP_HEADER_READSIZE then ICAP_HEADER_READSIZE else bytes;
        bytes := if bytes > |stream| - consumed then |stream| - consumed else bytes;
        PositivesNext(schedule, round);
        round := round + 1;
        if bytes == 0 { continue; }
      }
      var end := |buf|;
      ghost var old' := buf;
      buf := stream[..consumed + bytes];
      consumed := consumed + bytes;
      assert forall q :: 0 <= q < end - start ==> EohAt(buf, q) == EohAt(old', q);
      var p := SearchNew(buf, end, bytes, start);
      if p >= 0 {
        found, header, leftover := true, buf[..p + 2], buf[p + 4..];
        assert header == stream[..p + 2] && leftover == stream[p + 4..consumed];
        return;
      }
      start := if start < 3 then (if |buf| > 3 then 3 else |buf|) else start;
    }
    EndIsSeen(stream, schedule, consumed);
  }

  // ----- the client

  /** `strnstr(s, "\r\n\r\n", |s|)`. */
  method FindEoh(s: string) returns (p: int)
    ensures p >= 0 ==> FirstEoh(s, p)
    ensures p < 0 ==> NoEoh(s)
  {
    p := SearchNew(s, 0, |s|, 0);
  }

  /** Bytes that have been taken out of the window were seen with all that could make them an end of header. */
  lemma WindowSuffices(taken: string, held: string, fresh': string)
    requires NoEoh(taken + held) && (taken != "" ==> |held| == 3)
    ensures NoEoh(held + fresh') ==> NoEoh(taken + (held + fresh'))
    ensures forall p :: FirstEoh(held + fresh', p) ==> FirstEoh(taken + (held + fresh'), |taken| + p)
  {
    var n, window := |taken|, held + fresh';
    var all := taken + window;
    assert forall q :: 0 <= q < n ==> EohAt(all, q) == EohAt(taken + held, q);
    assert forall q :: n <= q < |all| ==> EohAt(all, q) == EohAt(window, q - n);
  }

  /** One call of `client_parse_icap_header`: `taken` is in the header buffer, `unread` in the window. */
  method ClientParse(taken: string, unread: string)
    returns (found: bool, header: string, taken': string, unread': string)
    requires taken != "" ==> |unread| >= 3
    ensures found ==> exists p: nat ::
              FirstEoh(unread, p) && p + 4 <= |unread| && header == taken + unread[..p + 2] && unread' == unread[p + 4..]
    ensures !found ==> NoEoh(unread) && taken' + unread' == taken + unread
    ensures !found ==> |unread'| <= 3 && (taken' != "" ==> |unread'| == 3)
  {
    found, header, taken', unread' := false, "", taken, unread;
    if |unread| < 4 { return; }
    var p := FindEoh(unread);
    if p >= 0 {
      return true, taken + unread[..p + 2], "", unread[p + 4..];
    }
    taken', unread' := taken + unread[..|unread| - 3], unread[|unread| - 3..];
  }

  /** The client's loop over the bytes that `net_data_read` delivers. */
  method ClientReadHeader(stream: string, schedule: seq<nat>)
    returns (found: bool, header: string, leftover: string, consumed: nat)
    ensures found ==> Cut(stream, consumed, header, leftover)
    ensures !found ==> consumed <= |stream| && NoEoh(stream[..consumed])
    ensures !found ==> consumed == |stream| || consumed >= Positives(schedule)
    ensures Suffices(stream, schedule) ==> found
  {
    hide EohAt, FirstEoh, NoEoh, Cut, Positives;
    PositivesAll(schedule);
    TooShort("");
    found, header, leftover, consumed := false, "", "", 0;
    var taken, unread := "", "";
    for round := 0 to |schedule|
      invariant consumed <= |stream| && stream[..consumed] == taken + unread && |unread| <= 3
      invariant taken != "" ==> |unread| == 3
      invariant NoEoh(taken + unread)
      invariant consumed == |stream| || consumed >= Positives(schedule[..round])
    {
      PositivesNext(schedule, round);
      var bytes := schedule[round];
      bytes := if bytes > BUFSIZE - |unread| then BUFSIZE - |unread| else bytes;
      bytes := if bytes > |stream| - consumed then |stream| - consumed else bytes;
      WindowSuffices(taken, unread, stream[consumed..consumed + bytes]);
      var window := unread + stream[consumed..consumed + bytes];
      WindowGrows(stream, consumed, bytes, taken, unread);
      consumed := consumed + bytes;
      var held;
      found, header, held, leftover := ClientParse(taken, window);
      if found {
        ghost var p: nat :| FirstEoh(window, p) && p + 4 <= |window| && header == taken + window[..p + 2]
                            && leftover == window[p + 4..];
        CutFound(stream, consumed, taken, window, p);
        return;
      }
      taken, unread := held, leftover;
    }
    EndIsSeen(stream, schedule, consumed);
  }

  lemma WindowGrows(stream: string, consumed: nat, bytes: nat, taken: string, unread: string)
    requires consumed + bytes <= |stream| && stream[..consumed] == taken + unread
    ensures stream[..consumed + bytes] == taken + (unread + stream[consumed..consumed + bytes])
  {
    assert stream[..consumed + bytes] == stream[..consumed] + stream[consumed..consumed + bytes];
  }

  lemma CutFound(stream: string, consumed: nat, taken: string, window: string, p: nat)
    requires consumed <= |stream| && stream[..consumed] == taken + window && p + 4 <= |window|
    requires FirstEoh(taken + window, |taken| + p)
    ensures Cut(stream, consumed, taken + window[..p + 2], window[p + 4..])
  {
    var q := |taken| + p;
    assert (taken + window)[..q + 2] == taken + window[..p + 2] && (taken + window)[q + 4..] == window[p + 4..];
    assert stream[..q + 2] == stream[..consumed][..q + 2] && stream[q + 4..consumed] == stream[..consumed][q + 4..];
  }

  lemma TooShort(s: string)
    requires |s| < 4
    ensures NoEoh(s)
  {
  }

  /** Both readers on one stream, each with its own reads: as soon as both have seen the end of the header they agree
      on the header and on what follows it, nothing skipped and nothing counted twice. */
  method ReadBoth(stream: string, prefetch: nat, server: seq<nat>, client: seq<nat>)
    returns (foundA: bool, headerA: string, leftoverA: string, a: nat, foundB: bool, headerB: string, leftoverB: string, b: nat)
    requires prefetch <= |stream|
    ensures foundA && foundB ==>
              && a <= |stream| && b <= |stream|
              && headerA == headerB && leftoverA + stream[a..] == leftoverB + stream[b..]
              && |headerA| + 2 + |leftoverA| == a && |headerB| + 2 + |leftoverB| == b
    ensures Suffices(stream, server) ==> foundA
    ensures Suffices(stream, client) ==> foundB
  {
    hide Cut, Suffices, NoEoh;
    foundA, headerA, leftoverA, a := ReadIcapHeader(stream, prefetch, server);
    foundB, headerB, leftoverB, b := ClientReadHeader(stream, client);
    if foundA && foundB {
      CutEnds(stream, a, headerA, leftoverA);
      CutEnds(stream, b, headerB, leftoverB);
      CutsAgree(stream, a, headerA, leftoverA, b, headerB, leftoverB);
    }
  }

  lemma CutEnds(stream: string, consumed: nat, header: string, leftover: string)
    requires Cut(stream, consumed, header, leftover)
    ensures consumed <= |stream|
  {
  }

  /** As many reads as bytes up to the end of the header suffice, if each brings something. */
  lemma ReadsSuffice(stream: string, schedule: seq<nat>, p: nat)
    requires p + 4 <= |stream| && stream[p..p + 4] == "\r\n\r\n" && |schedule| >= p + 4
    requires forall i :: 0 <= i < |schedule| ==> schedule[i] > 0
    ensures Suffices(stream, schedule)
  {
    EveryOneCounts(schedule);
    FourBytes(stream, p);
    var q := FirstOne(stream, p);
    assert FirstEoh(stream, q);
  }

  lemma FirstOne(s: string, p: nat) returns (q: nat)
    requires EohAt(s, p)
    ensures q <= p && FirstEoh(s, q)
  {
    q := 0;
    while !EohAt(s, q)
      invariant q <= p && forall k :: 0 <= k < q ==> !EohAt(s, k)
      decreases p - q
    {
      q := q + 1;
    }
  }
}
