/** The round trip of the Redis codec: what ParseReply makes of the output of ParseCmd, whole or cut short. */
module RespTheorems {
  import opened Options
  import opened Resp
  import opened RespProofs

  // ---------------------------------------------------------------- texts cut short

  lemma NoneFound(s: string, from: nat)
    requires forall i :: from <= i < |s| ==> !IsCrlf(s, i)
    ensures FindCrlf(s, from) == None
  {
    FirstCrlf(s, from);
  }

  /** `reply` from a on is the start of the bulk string of seg. */
  ghost predicate CutAt(reply: string, a: nat, seg: string) {
    a < |reply| && forall i :: a <= i < |reply| ==> i - a < |Piece(seg)| && reply[i] == Piece(seg)[i - a]
  }

  /** A bulk string cut short asks for more. */
  lemma SegWaits(reply: string, a: nat, seg: string)
    requires 4 <= a && CutAt(reply, a, seg) && |reply| < a + |Piece(seg)|
    requires seg != "" && NoCrlf(seg) && |reply| < 0x8000_0000 && |seg| < LONG_MAX
    ensures ParseSeg(reply, a).code == 1
  {
    var c := LineEnd(a, seg);
    if |reply| < c + 2 {
      LineUnfinished(reply, a, seg);
    } else {
      LineDone(reply, a, seg);
      TextCut(reply, a, seg);
      SegWaitsGiven(reply, a, c, |seg|);
    }
  }

  lemma LineDone(reply: string, a: nat, seg: string)
    requires CutAt(reply, a, seg) && LineEnd(a, seg) + 2 <= |reply| < 0x8000_0000 && |seg| < LONG_MAX
    ensures FindCrlf(reply, a) == Some(LineEnd(a, seg)) && Strtol(reply, a + 1) == (|seg|, LineEnd(a, seg))
  {
    PieceShape(seg);
    var c := LineEnd(a, seg);
    assert reply[a + 1..c] == Piece(seg)[1..c - a];
    LineEndFound(reply, a, seg);
    StrtolDecimal(reply, a + 1, |seg|);
  }

  lemma TextCut(reply: string, a: nat, seg: string)
    requires CutAt(reply, a, seg) && LineEnd(a, seg) + 2 <= |reply| < a + |Piece(seg)| && NoCrlf(seg)
    ensures FindCrlf(reply, LineEnd(a, seg) + 1) == None
  {
    var p, c, e := Piece(seg), LineEnd(a, seg), TextEnd(a, seg);
    PieceShape(seg);
    forall i | c + 2 <= i < |reply| && i < e ensures reply[i] == seg[i - c - 2] {
      assert p[i - a] == p[c - a + 2..e - a][i - c - 2];
    }
    TextUnfinished(reply, c, seg, e);
  }

  lemma SegWaitsGiven(reply: string, a: nat, c: nat, len: nat)
    requires FindCrlf(reply, a) == Some(c) && Strtol(reply, a + 1).0 == len && 3 < Strtol(reply, a + 1).1
    requires FindCrlf(reply, c + 1) == None && 0 < len < LONG_MAX
    ensures ParseSeg(reply, a).code == 1
  {
  }

  lemma LineUnfinished(reply: string, a: nat, seg: string)
    requires CutAt(reply, a, seg) && |reply| < LineEnd(a, seg) + 2
    ensures ParseSeg(reply, a).code == 1
  {
    var p, c := Piece(seg), LineEnd(a, seg);
    PieceShape(seg);
    forall i | a <= i < |reply| ensures !IsCrlf(reply, i) {
      if a < i < c { assert p[i - a] == p[1..c - a][i - a - 1]; }
    }
    NoneFound(reply, a);
  }

  lemma TextUnfinished(reply: string, c: nat, seg: string, e: nat)
    requires e == c + 2 + |seg| && c + 2 <= |reply| < e + 2 && reply[c + 1] == '\n' && NoCrlf(seg)
    requires forall i :: c + 2 <= i < |reply| && i < e ==> reply[i] == seg[i - c - 2]
    requires e < |reply| ==> reply[e] == '\r'
    ensures FindCrlf(reply, c + 1) == None
  {
    forall i | c + 1 <= i < |reply| ensures !IsCrlf(reply, i) {
      if c + 2 <= i && i + 1 < e && i + 1 < |reply| { assert !IsCrlf(seg, i - c - 2); }
    }
    NoneFound(reply, c + 1);
  }

  // ---------------------------------------------------------------- the first line

  lemma {:induction false} BodyLonger(segs: seq<string>)
    ensures |segs| <= |Body(segs)|
  {
    if segs != [] {
      PieceShape(segs[0]);
      BodyLonger(segs[1..]);
    }
  }

  lemma HeadShape(n: nat)
    ensures var h, d := Head(n), |Decimal(n)|;
            |h| == d + 3 && h[0] == '*' && h[1..d + 1] == Decimal(n) && h[d + 1] == '\r' && h[d + 2] == '\n' &&
            NoDollar(h)
  {
    var h, d := Head(n), |Decimal(n)|;
    assert h[1..d + 1] == Decimal(n);
    forall i | 0 <= i < |h| ensures h[i] != '$' {
      if 1 <= i <= d { assert h[i] == h[1..d + 1][i - 1]; }
    }
  }

  /** The first line of an array is understood, and the loop over its segments takes over. */
  lemma HeadRead(reply: string, n: nat)
    requires 0 < n < LONG_MAX && |Head(n)| <= |reply| && reply[..|Head(n)|] == Head(n)
    ensures ParseReply(reply) == Loop(Finder(reply), Reader(reply), 0, n, 0, Decimal(n) + [SEP])
  {
    var h, d := Head(n), |Decimal(n)|;
    HeadShape(n);
    assert forall i :: 0 <= i < |h| ==> h[i] == reply[i];
    assert reply[1..d + 1] == h[1..d + 1];
    assert IsCrlf(reply, d + 1);
    FirstCrlf(reply, 0);
    StrtolDecimal(reply, 1, n);
    Dispatch(reply, n);
    ParseSegsLoops(reply, 0, n, 0, Decimal(n) + [SEP]);
  }

  lemma Dispatch(reply: string, n: nat)
    requires reply != "" && reply[0] == '*' && FindCrlf(reply, 0).Some?
    requires 0 < n < LONG_MAX && Strtol(reply, 1).0 == n && Strtol(reply, 1).1 != 1
    ensures ParseReply(reply) == ParseSegs(reply, 0, n, 0, Decimal(n) + [SEP])
  {
  }

  // ---------------------------------------------------------------- an array of bulk strings

  /** `e` holds the bulk strings of `segs` at the places `at`, one after the other up to its end, and no '$' before. */
  ghost predicate Laid(e: string, at: seq<nat>, segs: seq<string>) {
    0 < |segs| == |at| && NonEmpty(segs) && |e| < 0x8000_0000 && 4 <= at[0] <= |e| &&
    (forall i :: 0 <= i < at[0] ==> e[i] != '$') &&
    (forall k :: 0 <= k < |segs| ==> LiesAt(e, at, segs, k))
  }

  lemma EncodedLaid(segs: seq<string>)
    requires segs != [] && NonEmpty(segs) && |Encoded(segs)| < 0x8000_0000
    ensures Laid(Encoded(segs), Starts(|Head(|segs|)|, segs), segs)
    ensures Encoded(segs)[..|Head(|segs|)|] == Head(|segs|) && Starts(|Head(|segs|)|, segs)[0] == |Head(|segs|)|
    ensures |segs| < LONG_MAX
  {
    var h, at := Head(|segs|), Starts(|Head(|segs|)|, segs);
    HeadShape(|segs|);
    BodyLonger(segs);
    forall k | 0 <= k < |segs| ensures LiesAt(Encoded(segs), at, segs, k) {
      StartsLie(h, segs, k);
    }
    assert forall i :: 0 <= i < |h| ==> Encoded(segs)[i] == h[i];
  }

  lemma Dollar(e: string, at: seq<nat>, segs: seq<string>, k: nat)
    requires LiesAt(e, at, segs, k)
    ensures at[k] < |e| && e[at[k]] == '$' && at[k] + 6 <= at[k] + |Piece(segs[k])|
  {
    PieceLies(e, at[k], segs[k]);
  }

  lemma FirstDollar(e: string, at: seq<nat>, segs: seq<string>, m: nat)
    requires Laid(e, at, segs) && m <= |e|
    ensures FindChar(e[..m], '$', 0) == if at[0] < m then Some(at[0]) else None
  {
    assert LiesAt(e, at, segs, 0);
    Dollar(e, at, segs, 0);
    FirstChar(e[..m], '$', 0);
  }

  lemma NextDollar(e: string, at: seq<nat>, segs: seq<string>, k: nat, m: nat)
    requires Laid(e, at, segs) && m <= |e| && k + 1 < |segs| && NoDollar(segs[k])
    ensures FindChar(e[..m], '$', at[k] + 1) == if at[k + 1] < m then Some(at[k + 1]) else None
  {
    var p := Piece(segs[k]);
    assert LiesAt(e, at, segs, k) && LiesAt(e, at, segs, k + 1);
    Dollar(e, at, segs, k + 1);
    PieceDollars(segs[k]);
    forall i | at[k] + 1 <= i < at[k + 1] ensures e[i] != '$' {
      assert e[i] == p[i - at[k]];
    }
    FirstChar(e[..m], '$', at[k] + 1);
  }

  /** A bulk string that lies wholly in the first m bytes is read from them. */
  lemma ReadWhole(e: string, at: seq<nat>, segs: seq<string>, k: nat, m: nat)
    requires Laid(e, at, segs) && k < |segs| && at[k] + |Piece(segs[k])| <= m <= |e|
    ensures 4 <= at[k]
    ensures ParseSeg(e[..m], at[k]) == if NoCrlf(segs[k]) then Seg(0, |Piece(segs[k])|, segs[k]) else Seg(-1, 0, "")
  {
    Ordered(e, at, segs, 0, k);
    assert LiesAt(e, at, segs, k);
    assert e[..m][at[k]..at[k] + |Piece(segs[k])|] == Piece(segs[k]);
    SegRead(e[..m], at[k], segs[k]);
  }

  lemma {:induction false} Ordered(e: string, at: seq<nat>, segs: seq<string>, j: nat, k: nat)
    requires Laid(e, at, segs) && j <= k < |segs|
    ensures at[j] <= at[k] && (j < k ==> at[j] + |Piece(segs[j])| <= at[k])
    decreases k - j
  {
    if j < k {
      assert LiesAt(e, at, segs, j);
      Ordered(e, at, segs, j + 1, k);
    }
  }

  /** The searches come to the first k places, when these lie in the first m bytes. */
  lemma VisitsFirst(e: string, at: seq<nat>, segs: seq<string>, k: nat, m: nat)
    requires Laid(e, at, segs) && k <= |segs| && m <= |e|
    requires forall j :: 0 <= j < |segs| - 1 ==> NoDollar(segs[j])
    requires forall j :: 0 <= j < k ==> at[j] < m
    ensures Visits(Finder(e[..m]), 0, at[..k])
  {
    var find := Finder(e[..m]);
    FirstDollar(e, at, segs, m);
    forall j | 0 <= j < |at[..k]| - 1 ensures find(at[..k][j] + 1) == Some(at[..k][j + 1]) {
      NextDollar(e, at, segs, j, m);
    }
  }

  /** The first k bulk strings are read, when they lie in the first m bytes and have no line end inside. */
  lemma ReadsFirst(e: string, at: seq<nat>, segs: seq<string>, k: nat, m: nat)
    requires Laid(e, at, segs) && k <= |segs| && m <= |e|
    requires forall j :: 0 <= j < k ==> at[j] + |Piece(segs[j])| <= m && NoCrlf(segs[j])
    ensures forall j :: 0 <= j < k ==> at[j] < m && Reader(e[..m])(at[j]).code == 0
  {
    forall j | 0 <= j < k ensures at[j] < m && ParseSeg(e[..m], at[j]).code == 0 {
      assert LiesAt(e, at, segs, j);
      Dollar(e, at, segs, j);
      ReadWhole(e, at, segs, j, m);
    }
  }

  /** Where the search for the k-th '$' starts. */
  function After(at: seq<nat>, k: nat): (idx: nat)
    requires k <= |at|
  {
    if k == 0 then 0 else at[k - 1] + 1
  }

  /** The loop after k places it can read. */
  lemma StopsAt(find: nat -> Option<nat>, parse: nat -> Seg, n: nat, out: string, at: seq<nat>, k: nat, idx: nat)
    requires k <= |at| && k < n && Visits(find, 0, at[..k]) && idx == After(at, k)
    requires forall j :: 0 <= j < k ==> parse(at[j]).code == 0
    ensures find(idx).None? ==> Loop(find, parse, 0, n, 0, out).code == 1
    ensures find(idx).Some? && parse(find(idx).value).code != 0 ==>
            Loop(find, parse, 0, n, 0, out).code == parse(find(idx).value).code
  {
    LoopStops(find, parse, 0, n, 0, out, at[..k]);
  }

  /** A clean array comes back whole. */
  lemma ReadsAll(e: string, at: seq<nat>, segs: seq<string>, out: string)
    requires Laid(e, at, segs) && Clean(segs)
    ensures Loop(Finder(e), Reader(e), 0, |segs|, 0, out) == Parsed(0, false, |e|, out + Join(segs))
  {
    var n := |segs|;
    forall k | 0 <= k < n ensures at[k] < |e| && ParseSeg(e, at[k]) == Seg(0, |Piece(segs[k])|, segs[k]) {
      assert LiesAt(e, at, segs, k);
      Dollar(e, at, segs, k);
      ReadWhole(e, at, segs, k, |e|);
      assert e[..|e|] == e;
    }
    VisitsFirst(e, at, segs, n, |e|);
    assert e[..|e|] == e && at[..n] == at;
    assert ReadsAt(Reader(e), at, segs);
    LoopReads(Finder(e), Reader(e), 0, n, 0, out, at, segs);
    assert LiesAt(e, at, segs, n - 1);
  }

  // ---------------------------------------------------------------- why the condition is needed

  /** A line end at k is found at k or before. */
  lemma CrlfBy(reply: string, from: nat, k: nat) returns (r: nat)
    requires from <= k && IsCrlf(reply, k)
    ensures FindCrlf(reply, from) == Some(r) && from <= r <= k
  {
    FirstCrlf(reply, from);
    r := FindCrlf(reply, from).value;
  }

  /** A bulk string never reaches past the second line end. */
  lemma SegSize(reply: string, a: nat, cr: nat, second: nat)
    requires FindCrlf(reply, a) == Some(cr) && FindCrlf(reply, cr + 1) == Some(second) && ParseSeg(reply, a).code == 0
    ensures a + ParseSeg(reply, a).size <= second + 2
  {
  }

  /** A '$' before the last bulk string never reads up to the end. */
  lemma EndsEarly(e: string, at: seq<nat>, segs: seq<string>, a: nat)
    requires Laid(e, at, segs) && a < at[|segs| - 1] <= |e| && e[a] == '$' && at[0] <= a
    ensures ShortBefore(Reader(e), a, at[|segs| - 1], |e|)
  {
    var last := at[|segs| - 1];
    var line := LastLine(e, at, segs, a);
    var cr := CrlfBy(e, a, last - 2);
    var second := CrlfBy(e, cr + 1, line);
    if ParseSeg(e, a).code == 0 { SegSize(e, a, cr, second); }
  }

  lemma LineEnds(e: string, at: seq<nat>, segs: seq<string>, k: nat)
    requires k < |segs| == |at| && LiesAt(e, at, segs, k)
    ensures var line, end := LineEnd(at[k], segs[k]), at[k] + |Piece(segs[k])|;
            at[k] < line < end - 3 && IsCrlf(e, line) && IsCrlf(e, end - 2)
  {
    PieceLies(e, at[k], segs[k]);
  }

  /** The line ends around the start of the last bulk string. */
  lemma LastLine(e: string, at: seq<nat>, segs: seq<string>, a: nat) returns (line: nat)
    requires Laid(e, at, segs) && at[0] <= a < at[|segs| - 1] <= |e| && e[a] == '$'
    ensures a < at[|segs| - 1] - 2 && IsCrlf(e, at[|segs| - 1] - 2) && IsCrlf(e, line) &&
            at[|segs| - 1] < line && line + 2 < |e|
  {
    var last := |segs| - 1;
    LineEnds(e, at, segs, last - 1);
    LineEnds(e, at, segs, last);
    assert LiesAt(e, at, segs, last - 1) && LiesAt(e, at, segs, last);
    line := LineEnd(at[last], segs[last]);
  }

  /** A '$' in a segment that is not the last makes the loop end early. */
  lemma DollarFails(e: string, at: seq<nat>, segs: seq<string>, j: nat, out: string)
    requires Laid(e, at, segs) && j < |segs| - 1 && !NoDollar(segs[j])
    ensures var r := Loop(Finder(e), Reader(e), 0, |segs|, 0, out); r.code == 0 ==> r.size < |e|
  {
    var last := |segs| - 1;
    var q := Inner(e, at, segs, j);
    var marks := at[..j + 1] + [q] + at[j + 1..last];
    MarksUp(e, at, segs, j, q);
    MarksFound(e, at, segs, j, q);
    forall x: nat | Finder(e)(x).Some? ensures ShortBefore(Reader(e), Finder(e)(x).value, at[last], |e|) {
      FirstChar(e, '$', x);
      var a := FindChar(e, '$', x).value;
      if a < at[last] {
        assert LiesAt(e, at, segs, last);
        EndsEarly(e, at, segs, a);
      }
    }
    LoopShort(Finder(e), Reader(e), 0, |segs|, 0, out, marks, at[last], |e|);
  }

  /** Where a '$' stands inside the j-th bulk string. */
  lemma Inner(e: string, at: seq<nat>, segs: seq<string>, j: nat) returns (q: nat)
    requires Laid(e, at, segs) && j < |segs| - 1 && !NoDollar(segs[j])
    ensures at[j] < q < at[j + 1] <= |e| && e[q] == '$'
  {
    assert LiesAt(e, at, segs, j);
    assert LiesAt(e, at, segs, j + 1);
    PieceDollars(segs[j]);
    var i :| 1 <= i < |Piece(segs[j])| && Piece(segs[j])[i] == '$';
    q := at[j] + i;
    assert e[q] == Piece(segs[j])[i];
  }

  lemma MarksUp(e: string, at: seq<nat>, segs: seq<string>, j: nat, q: nat)
    requires Laid(e, at, segs) && j < |segs| - 1 && at[j] < q < at[j + 1]
    ensures var last := |segs| - 1; var marks := at[..j + 1] + [q] + at[j + 1..last];
            |marks| == |segs| && Increasing(marks) && marks[|marks| - 1] < at[last]
  {
    var last := |segs| - 1;
    var marks := at[..j + 1] + [q] + at[j + 1..last];
    forall k | 0 <= k < last ensures at[k] < at[k + 1] {
      assert LiesAt(e, at, segs, k);
      Dollar(e, at, segs, k);
    }
  }

  lemma MarksFound(e: string, at: seq<nat>, segs: seq<string>, j: nat, q: nat)
    requires Laid(e, at, segs) && j < |segs| - 1 && q < |e| && e[q] == '$'
    ensures MarksCatch(Finder(e), at[..j + 1] + [q] + at[j + 1..|segs| - 1])
  {
    var marks := at[..j + 1] + [q] + at[j + 1..|segs| - 1];
    forall k, x: nat | 0 <= k < |marks| && x <= marks[k] ensures Finder(e)(x).Some? && Finder(e)(x).value <= marks[k] {
      assert marks[k] < |e| && e[marks[k]] == '$' by {
        if marks[k] != q {
          var i :| 0 <= i < |segs| && at[i] == marks[k];
          assert LiesAt(e, at, segs, i);
          Dollar(e, at, segs, i);
        }
      }
      FirstChar(e, '$', x);
    }
  }

  /** A line end in a segment makes the loop fail, when no '$' has misled it before. */
  lemma LineEndFails(e: string, at: seq<nat>, segs: seq<string>, out: string)
    requires Laid(e, at, segs) && (exists j :: 0 <= j < |segs| && !NoCrlf(segs[j]))
    requires forall i :: 0 <= i < |segs| - 1 ==> NoDollar(segs[i])
    ensures Loop(Finder(e), Reader(e), 0, |segs|, 0, out).code == -1
  {
    var j := FirstBad(segs);
    BadStops(e, at, segs, j, |e|, out);
    assert e[..|e|] == e;
  }

  lemma BadStops(e: string, at: seq<nat>, segs: seq<string>, j: nat, m: nat, out: string)
    requires Laid(e, at, segs) && m == |e| && j < |segs| && !NoCrlf(segs[j])
    requires forall i :: 0 <= i < j ==> NoCrlf(segs[i])
    requires forall i :: 0 <= i < |segs| - 1 ==> NoDollar(segs[i])
    ensures Loop(Finder(e[..m]), Reader(e[..m]), 0, |segs|, 0, out).code == -1
  {
    AllIn(e, at, segs);
    ReadsFirst(e, at, segs, j, m);
    VisitsFirst(e, at, segs, j, m);
    NextBad(e, at, segs, j, m);
    StopsAt(Finder(e[..m]), Reader(e[..m]), |segs|, out, at, j, After(at, j));
  }

  lemma NextBad(e: string, at: seq<nat>, segs: seq<string>, j: nat, m: nat)
    requires Laid(e, at, segs) && m == |e| && j < |segs| && !NoCrlf(segs[j])
    requires forall i :: 0 <= i < |segs| - 1 ==> NoDollar(segs[i])
    ensures Finder(e[..m])(After(at, j)) == Some(at[j]) && Reader(e[..m])(at[j]).code == -1
  {
    AllIn(e, at, segs);
    if j == 0 { FirstDollar(e, at, segs, m); } else { NextDollar(e, at, segs, j - 1, m); }
    ReadWhole(e, at, segs, j, m);
  }

  lemma AllIn(e: string, at: seq<nat>, segs: seq<string>)
    requires Laid(e, at, segs)
    ensures forall k :: 0 <= k < |segs| ==> at[k] + |Piece(segs[k])| <= |e| && at[k] < |e|
  {
    forall k | 0 <= k < |segs| ensures at[k] + |Piece(segs[k])| <= |e| && at[k] < |e| {
      assert LiesAt(e, at, segs, k);
      Dollar(e, at, segs, k);
    }
  }

  lemma FirstBad(segs: seq<string>) returns (j: nat)
    requires exists j :: 0 <= j < |segs| && !NoCrlf(segs[j])
    ensures j < |segs| && !NoCrlf(segs[j]) && forall i :: 0 <= i < j ==> NoCrlf(segs[i])
  {
    j := 0;
    while NoCrlf(segs[j])
      invariant j < |segs| && forall i :: 0 <= i < j ==> NoCrlf(segs[i])
      decreases |segs| - j
    {
      j := j + 1;
    }
  }

  // ---------------------------------------------------------------- the theorems

  /** An array of non-empty texts comes back, whole and with its full size, exactly when it is clean. */
  lemma RoundTripExactly(segs: seq<string>)
    requires segs != [] && NonEmpty(segs) && |Encoded(segs)| < 0x8000_0000
    ensures ParseReply(Encoded(segs)) == Parsed(0, false, |Encoded(segs)|, Decimal(|segs|) + [SEP] + Join(segs))
            <==> Clean(segs)
    ensures !Clean(segs) ==> ParseReply(Encoded(segs)).code != 0 || ParseReply(Encoded(segs)).size < |Encoded(segs)|
  {
    var e, at, out := Encoded(segs), Starts(|Head(|segs|)|, segs), Decimal(|segs|) + [SEP];
    EncodedLaid(segs);
    HeadRead(e, |segs|);
    if Clean(segs) {
      ReadsAll(e, at, segs, out);
    } else if exists j :: 0 <= j < |segs| - 1 && !NoDollar(segs[j]) {
      var j :| 0 <= j < |segs| - 1 && !NoDollar(segs[j]);
      DollarFails(e, at, segs, j, out);
    } else {
      LineEndFails(e, at, segs, out);
    }
  }

  /** The text of a command, without the one separator that may end it. */
  function Text(s: string): (r: string) { if s != "" && s[|s| - 1] == SEP then s[..|s| - 1] else s }

  /** A command that ParseCmd accepts comes back as its count and its own text exactly when its segments are clean. */
  lemma CommandComesBack(s: string)
    requires ParseCmd(s).Some? && |ParseCmd(s).value| < 0x8000_0000
    ensures var segs := SegmentsFrom(s, 0).value;
            ParseReply(ParseCmd(s).value) == Parsed(0, false, |ParseCmd(s).value|, Decimal(|segs|) + [SEP] + Text(s))
            <==> Clean(segs)
  {
    var segs := SegmentsFrom(s, 0).value;
    SegmentsAre(s, 0);
    assert s[0..] == s;
    JoinEnds(segs);
    assert Text(s) == Join(segs);
    RoundTripExactly(segs);
  }

  lemma {:induction false} JoinEnds(segs: seq<string>)
    requires segs != [] && Proper(segs)
    ensures Join(segs) != "" && Join(segs)[|Join(segs)| - 1] != SEP
  {
    if 1 < |segs| { JoinEnds(segs[1..]); }
  }

  /** A reply cut short anywhere asks for more. */
  lemma PrefixWaits(segs: seq<string>, m: nat)
    requires segs != [] && NonEmpty(segs) && Clean(segs) && |Encoded(segs)| < 0x8000_0000 && 0 < m < |Encoded(segs)|
    ensures ParseReply(Encoded(segs)[..m]).code == 1
  {
    var e, at, h := Encoded(segs), Starts(|Head(|segs|)|, segs), Head(|segs|);
    EncodedLaid(segs);
    if m < |h| {
      assert e[..m] == h[..m];
      HeadWaits(|segs|, m);
    } else {
      assert e[..m][..|h|] == h;
      HeadRead(e[..m], |segs|);
      LoopWaits(e, at, segs, m, Decimal(|segs|) + [SEP]);
    }
  }

  lemma HeadWaits(n: nat, m: nat)
    requires 0 < m < |Head(n)|
    ensures ParseReply(Head(n)[..m]).code == 1
  {
    var h, d := Head(n), |Decimal(n)|;
    HeadShape(n);
    forall i | 0 <= i < m ensures !IsCrlf(h[..m], i) {
      if 1 <= i <= d { assert h[i] == h[1..d + 1][i - 1]; }
    }
    NoneFound(h[..m], 0);
  }

  /** The first bulk string that does not lie wholly in the first m bytes. */
  lemma FirstCut(e: string, at: seq<nat>, segs: seq<string>, m: nat) returns (k: nat)
    requires Laid(e, at, segs) && m < |e|
    ensures k < |segs| && m < at[k] + |Piece(segs[k])| && forall j :: 0 <= j < k ==> at[j] + |Piece(segs[j])| <= m
  {
    k := 0;
    while at[k] + |Piece(segs[k])| <= m
      invariant k < |segs| && forall j :: 0 <= j < k ==> at[j] + |Piece(segs[j])| <= m
      decreases |segs| - k
    {
      assert LiesAt(e, at, segs, k);
      k := k + 1;
    }
  }

  lemma LoopWaits(e: string, at: seq<nat>, segs: seq<string>, m: nat, out: string)
    requires Laid(e, at, segs) && Clean(segs) && m < |e|
    ensures Loop(Finder(e[..m]), Reader(e[..m]), 0, |segs|, 0, out).code == 1
  {
    var reply := e[..m];
    var k := FirstCut(e, at, segs, m);
    ReadsFirst(e, at, segs, k, m);
    VisitsFirst(e, at, segs, k, m);
    NextCut(e, at, segs, k, m);
    StopsAt(Finder(reply), Reader(reply), |segs|, out, at, k, After(at, k));
  }

  /** After the first k bulk strings the search finds nothing, or one that is cut short. */
  lemma NextCut(e: string, at: seq<nat>, segs: seq<string>, k: nat, m: nat)
    requires Laid(e, at, segs) && Clean(segs) && k < |segs| && m < at[k] + |Piece(segs[k])| && m < |e|
    ensures var next := Finder(e[..m])(After(at, k));
            next.Some? ==> Reader(e[..m])(next.value).code == 1
  {
    if k == 0 { FirstDollar(e, at, segs, m); } else { NextDollar(e, at, segs, k - 1, m); }
    if at[k] < m { CutWaits(e, at, segs, k, m); }
  }

  lemma CutWaits(e: string, at: seq<nat>, segs: seq<string>, k: nat, m: nat)
    requires Laid(e, at, segs) && k < |segs| && at[k] < m <= |e| && m < at[k] + |Piece(segs[k])| && NoCrlf(segs[k])
    ensures ParseSeg(e[..m], at[k]).code == 1
  {
    Ordered(e, at, segs, 0, k);
    assert LiesAt(e, at, segs, k);
    var p := Piece(segs[k]);
    assert forall i :: 0 <= i < |p| ==> p[i] == e[at[k] + i];
    PieceLies(e, at[k], segs[k]);
    SegWaits(e[..m], at[k], segs[k]);
  }
}
