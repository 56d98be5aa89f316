/** What the two halves of the Redis parser promise together. */
module RespProofs {
  import opened Options
  import opened Machine
  import opened Resp

  predicate NoCrlf(s: string) { forall i :: 0 <= i < |s| ==> !IsCrlf(s, i) }

  predicate NoDollar(s: string) { '$' !in s }

  // ---------------------------------------------------------------- searches

  lemma {:induction false} FirstChar(s: string, c: char, from: nat)
    ensures var r := FindChar(s, c, from);
            (r.Some? ==> s[r.value] == c) &&
            forall i :: from <= i < (if r.Some? then r.value else |s|) ==> s[i] != c
    decreases |s| - from
  {
    if from < |s| && s[from] != c { FirstChar(s, c, from + 1); }
  }

  lemma {:induction false} FirstCrlf(s: string, from: nat)
    ensures var r := FindCrlf(s, from);
            (r.Some? ==> IsCrlf(s, r.value)) &&
            forall i :: from <= i < (if r.Some? then r.value else |s|) ==> !IsCrlf(s, i)
    decreases |s| - from
  {
    if from + 1 < |s| && !IsCrlf(s, from) { FirstCrlf(s, from + 1); }
  }

  // ---------------------------------------------------------------- commands

  /** The segments joined by the separator. */
  function Join(segs: seq<string>): (s: string) {
    if segs == [] then "" else if |segs| == 1 then segs[0] else segs[0] + [SEP] + Join(segs[1..])
  }

  predicate Proper(segs: seq<string>) { forall i :: 0 <= i < |segs| ==> segs[i] != "" && SEP !in segs[i] }

  /** What a command is split into: proper segments that joined give the text, but for one separator at the end. */
  lemma {:induction false} SegmentsAre(s: string, follower: nat)
    requires follower <= |s| && SegmentsFrom(s, follower).Some?
    ensures var segs := SegmentsFrom(s, follower).value;
            Proper(segs) && (segs == [] <==> follower == |s|) &&
            (s[follower..] == Join(segs) || (segs != [] && s[follower..] == Join(segs) + [SEP]))
    decreases |s| - follower
  {
    var leader := FindChar(s, SEP, follower);
    FirstChar(s, SEP, follower);
    if leader.Some? {
      var e := leader.value;
      SegmentsAre(s, e + 1);
      var rest := SegmentsFrom(s, e + 1).value;
      var first := s[follower..e];
      assert s[follower..] == first + [SEP] + s[e + 1..];
      var segs := [first] + rest;
      assert segs[1..] == rest;
      if rest == [] {
        assert s[e + 1..] == "" && Join(segs) == first;
      } else {
        assert Join(segs) == first + [SEP] + Join(rest);
      }
    }
  }

  /** Splitting fails exactly when a segment before a separator is empty. */
  lemma {:induction false} RefusedExactly(s: string, follower: nat)
    requires follower <= |s|
    ensures SegmentsFrom(s, follower).None? <==>
            exists i :: follower <= i < |s| && s[i] == SEP && (i == follower || s[i - 1] == SEP)
    decreases |s| - follower
  {
    var leader := FindChar(s, SEP, follower);
    FirstChar(s, SEP, follower);
    if leader.Some? && leader.value != follower {
      RefusedExactly(s, leader.value + 1);
      var e := leader.value;
      if SegmentsFrom(s, follower).None? {
        var i :| e + 1 <= i < |s| && s[i] == SEP && (i == e + 1 || s[i - 1] == SEP);
        assert s[i - 1] == SEP;
      }
    }
  }

  /** A command is refused exactly when it is empty or has an empty segment before a separator. */
  lemma CommandRefusedExactly(s: string)
    ensures ParseCmd(s).None? <==>
            s == "" || exists i :: 0 <= i < |s| && s[i] == SEP && (i == 0 || s[i - 1] == SEP)
  {
    RefusedExactly(s, 0);
  }

  // ---------------------------------------------------------------- numbers

  /** sprintf writes no zero in front. */
  lemma {:induction false} DecimalPlain(n: nat)
    ensures 0 < n ==> Decimal(n)[0] != '0'
  {
    if 10 <= n { DecimalPlain(n / 10); }
  }

  lemma FrontAndLast(s: string, i: nat, d: string, c: char)
    requires i + |d| + 1 <= |s| && s[i..i + |d| + 1] == d + [c]
    ensures s[i..i + |d|] == d && s[i + |d|] == c
  {
    assert s[i..i + |d|] == s[i..i + |d| + 1][..|d|];
    assert s[i + |d|] == s[i..i + |d| + 1][|d|];
  }

  lemma {:induction false} ScanDecimal(s: string, i: nat, n: nat)
    requires i + |Decimal(n)| <= |s| && s[i..i + |Decimal(n)|] == Decimal(n)
    ensures Scan(s, i, 0) == Scan(s, i + |Decimal(n)|, n)
  {
    if n < 10 {
      assert s[i] == Decimal(n)[0];
    } else {
      var d, c := Decimal(n / 10), DigitChar(n % 10);
      FrontAndLast(s, i, d, c);
      ScanDecimal(s, i, n / 10);
      assert 10 * (n / 10) + DigitValue(c) == n;
    }
  }

  /** strtol reads back what sprintf wrote. */
  lemma StrtolDecimal(s: string, i: nat, n: nat)
    requires i + |Decimal(n)| < |s| && s[i..i + |Decimal(n)|] == Decimal(n) && n < LONG_MAX
    requires !IsDigit(s[i + |Decimal(n)|])
    ensures Strtol(s, i) == (n, i + |Decimal(n)|)
  {
    ScanDecimal(s, i, n);
    assert s[i] == Decimal(n)[0];
  }

  // ---------------------------------------------------------------- one bulk string

  /** Places in a bulk string that starts at a: the end of its first line, its text, the end of its text. */
  function LineEnd(a: nat, seg: string): (c: nat) { a + 1 + |Decimal(|seg|)| }

  function TextEnd(a: nat, seg: string): (e: nat) { LineEnd(a, seg) + 2 + |seg| }

  /** A bulk string with its length written d: what stands where. */
  lemma PartsShape(d: string, seg: string)
    ensures var p, c, e := "$" + d + CRLF + seg + CRLF, 1 + |d|, 3 + |d| + |seg|;
            |p| == e + 2 && p[0] == '$' && p[1..c] == d && p[c] == '\r' && p[c + 1] == '\n' &&
            p[c + 2..e] == seg && p[e] == '\r' && p[e + 1] == '\n'
  {
    var first := "$" + d + CRLF;
    var p, c, e := "$" + d + CRLF + seg + CRLF, 1 + |d|, 3 + |d| + |seg|;
    assert p == first + (seg + CRLF);
    assert first[1..c] == d && first[c] == '\r' && first[c + 1] == '\n';
    assert p[1..c] == first[1..c];
    assert p[c + 2..] == seg + CRLF;
    assert p[c + 2..e] == p[c + 2..][..|seg|];
    assert p[e] == p[c + 2..][|seg|] && p[e + 1] == p[c + 2..][|seg| + 1];
  }

  lemma PieceShape(seg: string)
    ensures var p, c, e := Piece(seg), LineEnd(0, seg), TextEnd(0, seg);
            |p| == e + 2 && p[0] == '$' && p[1..c] == Decimal(|seg|) && p[c] == '\r' && p[c + 1] == '\n' &&
            p[c + 2..e] == seg && p[e] == '\r' && p[e + 1] == '\n'
  {
    PartsShape(Decimal(|seg|), seg);
  }

  lemma Within(s: string, a: nat, p: string, i: nat, j: nat)
    requires a + |p| <= |s| && s[a..a + |p|] == p && i <= j <= |p|
    ensures s[a + i..a + j] == p[i..j]
    ensures i < |p| ==> s[a + i] == p[i]
  {
    assert forall k :: 0 <= k < |p| ==> p[k] == s[a + k];
  }

  lemma PartsLie(reply: string, a: nat, p: string, c: nat, e: nat)
    requires a + |p| <= |reply| && reply[a..a + |p|] == p && 1 <= c && c + 2 <= e && |p| == e + 2
    requires p[0] == '$' && p[c] == '\r' && p[c + 1] == '\n' && p[e] == '\r' && p[e + 1] == '\n'
    ensures reply[a] == '$' && reply[a + 1..a + c] == p[1..c] && IsCrlf(reply, a + c) &&
            reply[a + c + 2..a + e] == p[c + 2..e] && IsCrlf(reply, a + e)
  {
    Within(reply, a, p, 0, 1);
    Within(reply, a, p, 1, c);
    Within(reply, a, p, c, c + 1);
    Within(reply, a, p, c + 1, c + 2);
    Within(reply, a, p, c + 2, e);
    Within(reply, a, p, e, e + 1);
    Within(reply, a, p, e + 1, e + 2);
  }

  /** What stands where in a text that holds the bulk string of seg at a. */
  lemma PieceLies(reply: string, a: nat, seg: string)
    requires a + |Piece(seg)| <= |reply| && reply[a..a + |Piece(seg)|] == Piece(seg)
    ensures var c, e := LineEnd(a, seg), TextEnd(a, seg);
            e + 1 < |reply| && reply[a] == '$' && reply[a + 1..c] == Decimal(|seg|) && IsCrlf(reply, c) &&
            reply[c + 2..e] == seg && IsCrlf(reply, e) && a + |Piece(seg)| == e + 2
  {
    PieceShape(seg);
    PartsLie(reply, a, Piece(seg), LineEnd(0, seg), TextEnd(0, seg));
  }

  lemma DigitsThenEnd(reply: string, a: nat, d: string, c: nat)
    requires a < |reply| && reply[a] == '$' && c == a + 1 + |d| < |reply| && reply[a + 1..c] == d && IsCrlf(reply, c)
    requires forall i :: 0 <= i < |d| ==> IsDigit(d[i])
    ensures FindCrlf(reply, a) == Some(c)
  {
    FirstCrlf(reply, a);
    forall i | a <= i < c ensures !IsCrlf(reply, i) {
      if a < i { assert reply[i] == reply[a + 1..c][i - a - 1]; }
    }
  }

  lemma LineEndFound(reply: string, a: nat, seg: string)
    requires a < |reply| && reply[a] == '$' && LineEnd(a, seg) < |reply| &&
             reply[a + 1..LineEnd(a, seg)] == Decimal(|seg|)
    requires IsCrlf(reply, LineEnd(a, seg))
    ensures FindCrlf(reply, a) == Some(LineEnd(a, seg))
  {
    DigitsThenEnd(reply, a, Decimal(|seg|), LineEnd(a, seg));
  }

  /** The line end that closes the text is the first after the length exactly when the text has none inside. */
  lemma TextEndFound(reply: string, c: nat, seg: string)
    requires c + 2 + |seg| + 1 < |reply| && IsCrlf(reply, c) && reply[c + 2..c + 2 + |seg|] == seg
    requires IsCrlf(reply, c + 2 + |seg|)
    ensures FindCrlf(reply, c + 1).Some? && c + 2 <= FindCrlf(reply, c + 1).value
    ensures FindCrlf(reply, c + 1) == Some(c + 2 + |seg|) <==> NoCrlf(seg)
    ensures FindCrlf(reply, c + 1).value <= c + 2 + |seg|
  {
    var b := c + 2;
    FirstCrlf(reply, c + 1);
    assert forall i :: 0 <= i < |seg| ==> seg[i] == reply[b + i];
    forall i | 0 <= i < |seg| ensures IsCrlf(seg, i) <==> IsCrlf(reply, b + i) {
    }
    if !NoCrlf(seg) {
      var i :| 0 <= i < |seg| && IsCrlf(seg, i);
      assert IsCrlf(reply, b + i);
    } else {
      forall i | c + 1 <= i < b + |seg| ensures !IsCrlf(reply, i) {
        if b <= i { assert !IsCrlf(seg, i - b); }
      }
    }
  }

  /** A bulk string in a reply is read back exactly when its text has no line end inside; otherwise it is an error. */
  lemma SegRead(reply: string, a: nat, seg: string)
    requires 4 <= a && a + |Piece(seg)| <= |reply| && reply[a..a + |Piece(seg)|] == Piece(seg)
    requires seg != "" && |reply| < 0x8000_0000
    ensures ParseSeg(reply, a) == if NoCrlf(seg) then Seg(0, |Piece(seg)|, seg) else Seg(-1, 0, "")
  {
    var c, e := LineEnd(a, seg), TextEnd(a, seg);
    PieceLies(reply, a, seg);
    LineEndFound(reply, a, seg);
    TextEndFound(reply, c, seg);
    StrtolDecimal(reply, a + 1, |seg|);
    SegReadGiven(reply, a, c, |seg|, FindCrlf(reply, c + 1).value);
  }

  /** ParseSeg, once its searches have found what they look for. */
  lemma SegReadGiven(reply: string, a: nat, c: nat, len: nat, second: nat)
    requires FindCrlf(reply, a) == Some(c) && Strtol(reply, a + 1).0 == len && 3 < Strtol(reply, a + 1).1
    requires FindCrlf(reply, c + 1) == Some(second) && c + 2 <= second && |reply| < 0x8000_0000 && 0 < len < LONG_MAX
    ensures ParseSeg(reply, a) ==
            if second - c - 2 == len then Seg(0, second + 2 - a, reply[c + 2..second]) else Seg(-1, 0, "")
  {
    ToIntExact(second - c - 2);
  }

  // ---------------------------------------------------------------- the loop over an array

  /** The loop of ParseReply over any way to find the next '$' and to read a segment. */
  function Loop(find: nat -> Option<nat>, parse: nat -> Seg, i: nat, n: nat, idx: nat, out: string): (r: Parsed)
    requires i < n
    decreases n - i
  {
    match find(idx)
    case None => Parsed(1, false, 0, out)
    case Some(a) =>
      var seg := parse(a);
      if seg.code != 0 then Parsed(seg.code, false, 0, out)
      else if i == n - 1 then Parsed(0, false, a + seg.size, out + seg.text)
      else Loop(find, parse, i + 1, n, a + 1, out + seg.text + [SEP])
  }

  function Finder(reply: string): (f: nat -> Option<nat>) { (x: nat) => FindChar(reply, '$', x) }

  function Reader(reply: string): (f: nat -> Seg) { (x: nat) => ParseSeg(reply, x) }

  lemma NextSegment(reply: string, i: nat, n: nat, idx: nat, out: string, a: nat)
    requires i < n && FindChar(reply, '$', idx) == Some(a) && ParseSeg(reply, a).code == 0
    ensures var seg := ParseSeg(reply, a);
            ParseSegs(reply, i, n, idx, out) ==
            if i == n - 1 then Parsed(0, false, a + seg.size, out + seg.text)
            else ParseSegs(reply, i + 1, n, a + 1, out + seg.text + [SEP])
  {
  }

  lemma LoopNext(find: nat -> Option<nat>, parse: nat -> Seg, i: nat, n: nat, idx: nat, out: string, a: nat)
    requires i < n && find(idx) == Some(a) && parse(a).code == 0
    ensures Loop(find, parse, i, n, idx, out) ==
            if i == n - 1 then Parsed(0, false, a + parse(a).size, out + parse(a).text)
            else Loop(find, parse, i + 1, n, a + 1, out + parse(a).text + [SEP])
  {
  }

  lemma {:induction false} ParseSegsLoops(reply: string, i: nat, n: nat, idx: nat, out: string)
    requires i < n
    ensures ParseSegs(reply, i, n, idx, out) == Loop(Finder(reply), Reader(reply), i, n, idx, out)
    decreases n - i
  {
    var dollar := FindChar(reply, '$', idx);
    if dollar.Some? && ParseSeg(reply, dollar.value).code == 0 {
      var a, text := dollar.value, ParseSeg(reply, dollar.value).text;
      NextSegment(reply, i, n, idx, out, a);
      LoopNext(Finder(reply), Reader(reply), i, n, idx, out, a);
      if i < n - 1 { ParseSegsLoops(reply, i + 1, n, a + 1, out + text + [SEP]); }
    }
  }

  /** The loop comes to the points of `at`, from idx on, one after the other. */
  ghost predicate Visits(find: nat -> Option<nat>, idx: nat, at: seq<nat>) {
    (at != [] ==> find(idx) == Some(at[0])) && forall k :: 0 <= k < |at| - 1 ==> find(at[k] + 1) == Some(at[k + 1])
  }

  lemma VisitsRest(find: nat -> Option<nat>, idx: nat, at: seq<nat>)
    requires Visits(find, idx, at) && at != []
    ensures find(idx) == Some(at[0]) && Visits(find, at[0] + 1, at[1..])
  {
    forall k | 0 <= k < |at[1..]| - 1 ensures find(at[1..][k] + 1) == Some(at[1..][k + 1]) {
      assert find(at[k + 1] + 1) == Some(at[k + 2]);
    }
    if 1 < |at| { assert find(at[0] + 1) == Some(at[1]); }
  }

  ghost predicate ReadsAt(parse: nat -> Seg, at: seq<nat>, segs: seq<string>) {
    |at| == |segs| && forall k :: 0 <= k < |at| ==> parse(at[k]).code == 0 && parse(at[k]).text == segs[k]
  }

  /** The loop reads all the segments it comes to. */
  lemma {:induction false} LoopReads(find: nat -> Option<nat>, parse: nat -> Seg, i: nat, n: nat, idx: nat, out: string,
                                     at: seq<nat>, segs: seq<string>)
    requires n == i + |at| && at != [] && Visits(find, idx, at) && ReadsAt(parse, at, segs)
    ensures var last := at[|at| - 1];
            Loop(find, parse, i, n, idx, out) == Parsed(0, false, last + parse(last).size, out + Join(segs))
    decreases |at|
  {
    VisitsRest(find, idx, at);
    if 1 < |at| {
      LoopReads(find, parse, i + 1, n, at[0] + 1, out + segs[0] + [SEP], at[1..], segs[1..]);
      JoinStep(out, segs);
    }
  }

  lemma JoinStep(out: string, segs: seq<string>)
    requires 1 < |segs|
    ensures out + segs[0] + [SEP] + Join(segs[1..]) == out + Join(segs)
  {
  }

  /** The loop stops with the code of the first segment it cannot read. */
  lemma {:induction false} LoopStops(find: nat -> Option<nat>, parse: nat -> Seg, i: nat, n: nat, idx: nat,
                                     out: string, at: seq<nat>)
    requires i + |at| < n && Visits(find, idx, at) && forall k :: 0 <= k < |at| ==> parse(at[k]).code == 0
    ensures var next := find(if at == [] then idx else at[|at| - 1] + 1);
            (next.None? ==> Loop(find, parse, i, n, idx, out).code == 1) &&
            (next.Some? && parse(next.value).code != 0 ==>
             Loop(find, parse, i, n, idx, out).code == parse(next.value).code)
    decreases |at|
  {
    if at != [] {
      VisitsRest(find, idx, at);
      LoopStops(find, parse, i + 1, n, at[0] + 1, out + parse(at[0]).text + [SEP], at[1..]);
    }
  }

  /** The searches find something at each mark or before it. */
  ghost predicate MarksCatch(find: nat -> Option<nat>, marks: seq<nat>) {
    forall k, x: nat :: 0 <= k < |marks| && x <= marks[k] ==> find(x).Some? && find(x).value <= marks[k]
  }

  ghost predicate Increasing(marks: seq<nat>) { forall k :: 0 <= k < |marks| - 1 ==> marks[k] < marks[k + 1] }

  predicate ShortBefore(parse: nat -> Seg, a: nat, limit: nat, bound: nat) {
    a < limit && parse(a).code == 0 ==> a + parse(a).size < bound
  }

  /** With as many marks as segments to read, all before `limit`, no segment is looked for at `limit` or after. */
  lemma {:induction false} LoopShort(find: nat -> Option<nat>, parse: nat -> Seg, i: nat, n: nat, idx: nat, out: string,
                                     marks: seq<nat>, limit: nat, bound: nat)
    requires n == i + |marks| && marks != [] && Increasing(marks) && MarksCatch(find, marks)
    requires idx <= marks[0] && marks[|marks| - 1] < limit
    requires forall x: nat :: find(x).Some? ==> ShortBefore(parse, find(x).value, limit, bound)
    ensures var r := Loop(find, parse, i, n, idx, out); r.code == 0 ==> r.size < bound
    decreases |marks|
  {
    assert find(idx).Some? && find(idx).value <= marks[0];
    var a := find(idx).value;
    assert ShortBefore(parse, a, limit, bound);
    IncreasingBelow(marks);
    if parse(a).code == 0 && 1 < |marks| {
      assert marks[0] < marks[1];
      MarksRest(find, marks);
      LoopShort(find, parse, i + 1, n, a + 1, out + parse(a).text + [SEP], marks[1..], limit, bound);
    }
  }

  lemma {:induction false} IncreasingBelow(marks: seq<nat>)
    requires Increasing(marks) && marks != []
    ensures marks[0] <= marks[|marks| - 1]
    decreases |marks|
  {
    if 1 < |marks| {
      assert marks[0] < marks[1];
      assert Increasing(marks[1..]) by {
        forall k | 0 <= k < |marks[1..]| - 1 ensures marks[1..][k] < marks[1..][k + 1] {
          assert marks[k + 1] < marks[k + 2];
        }
      }
      IncreasingBelow(marks[1..]);
    }
  }

  lemma MarksRest(find: nat -> Option<nat>, marks: seq<nat>)
    requires Increasing(marks) && MarksCatch(find, marks) && marks != []
    ensures Increasing(marks[1..]) && MarksCatch(find, marks[1..])
  {
    forall k | 0 <= k < |marks[1..]| - 1 ensures marks[1..][k] < marks[1..][k + 1] {
      assert marks[k + 1] < marks[k + 2];
    }
    forall k, x: nat | 0 <= k < |marks[1..]| && x <= marks[1..][k]
      ensures find(x).Some? && find(x).value <= marks[1..][k]
    {
      assert marks[1..][k] == marks[k + 1];
    }
  }

  // ---------------------------------------------------------------- where the bulk strings are

  /** The exact condition for a command to come back: no line end in any segment, and no '$' in any but the last. */
  predicate Clean(segs: seq<string>) {
    (forall i :: 0 <= i < |segs| ==> NoCrlf(segs[i])) && (forall i :: 0 <= i < |segs| - 1 ==> NoDollar(segs[i]))
  }

  predicate NonEmpty(segs: seq<string>) { forall i :: 0 <= i < |segs| ==> segs[i] != "" }

  /** A piece has no second '$' exactly when its text has none. */
  lemma PieceDollars(seg: string)
    ensures NoDollar(seg) <==> forall i :: 1 <= i < |Piece(seg)| ==> Piece(seg)[i] != '$'
  {
    var p, c, e := Piece(seg), LineEnd(0, seg), TextEnd(0, seg);
    PieceShape(seg);
    forall i | 1 <= i < |p| && !(c + 2 <= i < e) ensures p[i] != '$' {
      if i < c { assert p[i] == p[1..c][i - 1]; }
    }
    assert forall i :: c + 2 <= i < e ==> p[i] == p[c + 2..e][i - c - 2];
    if !NoDollar(seg) {
      var i :| 0 <= i < |seg| && seg[i] == '$';
      assert p[c + 2 + i] == '$';
    }
  }

  /** Where each bulk string starts, the first one at a. */
  function Starts(a: nat, segs: seq<string>): (at: seq<nat>)
    ensures |at| == |segs| && (segs != [] ==> at[0] == a)
    decreases |segs|
  {
    if segs == [] then [] else [a] + Starts(a + |Piece(segs[0])|, segs[1..])
  }

  lemma Middle(pre: string, p: string, rest: string)
    ensures pre + (p + rest) == (pre + p) + rest && (pre + (p + rest))[|pre|..|pre| + |p|] == p
  {
  }

  /** The k-th bulk string of `whole` lies at its start and ends where the next starts, or the text ends. */
  ghost predicate LiesAt(whole: string, at: seq<nat>, segs: seq<string>, k: nat) {
    k < |segs| == |at| && at[k] + |Piece(segs[k])| <= |whole| &&
    whole[at[k]..at[k] + |Piece(segs[k])|] == Piece(segs[k]) &&
    at[k] + |Piece(segs[k])| == if k + 1 < |segs| then at[k + 1] else |whole|
  }

  lemma {:induction false} StartsLie(pre: string, segs: seq<string>, k: nat)
    requires k < |segs|
    ensures |pre| <= Starts(|pre|, segs)[k] && LiesAt(pre + Body(segs), Starts(|pre|, segs), segs, k)
    decreases |segs|
  {
    var p, rest := Piece(segs[0]), Body(segs[1..]);
    Middle(pre, p, rest);
    if k == 0 {
      if |segs| == 1 { assert rest == ""; }
    } else {
      StartsLie(pre + p, segs[1..], k - 1);
      LiesOn(pre + Body(segs), Starts(|pre|, segs), Starts(|pre + p|, segs[1..]), segs, k);
    }
  }

  lemma LiesOn(whole: string, at: seq<nat>, tail: seq<nat>, segs: seq<string>, k: nat)
    requires 0 < k < |segs| == |at| && at[1..] == tail && LiesAt(whole, tail, segs[1..], k - 1)
    ensures LiesAt(whole, at, segs, k)
  {
    assert at[k] == tail[k - 1];
    if k + 1 < |segs| { assert at[k + 1] == tail[k]; }
  }
}
