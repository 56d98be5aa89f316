/** What ParseReply makes of each kind of reply: bulk strings, null, numbers, status lines and errors, whole or cut
    short, whatever comes behind them. */
module RespReplies {
  import opened Options
  import opened Machine
  import opened Resp
  import opened RespProofs
  import opened RespTheorems

  // ---------------------------------------------------------------- lines

  /** The line end that closes `head` is found first when there is none inside. */
  lemma LineCloses(head: string, rest: string)
    requires NoCrlf(head)
    ensures FindCrlf(head + CRLF + rest, 0) == Some(|head|)
  {
    var reply := head + CRLF + rest;
    FirstCrlf(reply, 0);
    assert IsCrlf(reply, |head|);
    forall i | 0 <= i < |head| ensures !IsCrlf(reply, i) {
      assert !IsCrlf(head, i);
    }
  }

  /** A reply without a line end, whatever it starts with, asks for more. */
  lemma NoLineWaits(reply: string)
    requires reply != "" && NoCrlf(reply)
    ensures ParseReply(reply).code == 1
  {
    NoneFound(reply, 0);
  }

  /** A number comes back as it stands. */
  lemma NumberComesBack(digits: string, rest: string)
    requires NoCrlf(":" + digits)
    ensures ParseReply(":" + digits + CRLF + rest) == Parsed(0, false, |digits| + 3, "1" + [SEP] + digits)
  {
    LineCloses(":" + digits, rest);
    assert (":" + digits + CRLF + rest)[1..|digits| + 1] == digits;
  }

  /** An error is told from every other answer. */
  lemma ErrorIsNull(text: string, rest: string)
    requires NoCrlf("-" + text)
    ensures ParseReply("-" + text + CRLF + rest) == Parsed(0, false, |text| + 3, "__null")
  {
    LineCloses("-" + text, rest);
  }

  predicate StandsAt(s: string, t: string, k: nat) { k + |t| <= |s| && s[k..k + |t|] == t }

  lemma {:induction false} ContainsExactly(s: string, t: string, i: nat)
    ensures ContainsFrom(s, t, i) <==> exists k :: i <= k && StandsAt(s, t, k)
    decreases |s| - i
  {
    if ContainsFrom(s, t, i) {
      if s[i..i + |t|] == t {
        assert StandsAt(s, t, i);
      } else {
        ContainsExactly(s, t, i + 1);
      }
    } else if i < |s| {
      ContainsExactly(s, t, i + 1);
      assert !StandsAt(s, t, i);
    }
  }

  /** A status line is a PONG exactly when PONG is found in what has come in. */
  lemma StatusIsPong(text: string, rest: string)
    requires NoCrlf("+" + text)
    ensures var reply := "+" + text + CRLF + rest;
            ParseReply(reply) == Parsed(0, exists k :: 0 <= k && StandsAt(reply, "PONG", k), |text| + 3, "0")
  {
    var reply := "+" + text + CRLF + rest;
    LineCloses("+" + text, rest);
    ContainsExactly(reply, "PONG", 0);
    if k :| 0 <= k && StandsAt(reply, "PONG", k) {
      assert reply[0] == '+' && reply[k..k + 4][0] == 'P' == reply[k];
    }
  }

  lemma PongIsPong(rest: string)
    ensures ParseReply("+PONG" + CRLF + rest) == Parsed(0, true, 7, "0")
  {
    var reply := "+PONG" + CRLF + rest;
    assert "+" + "PONG" == "+PONG";
    StatusIsPong("PONG", rest);
    assert StandsAt(reply, "PONG", 1);
  }

  // ---------------------------------------------------------------- a bulk string

  /** A bulk string comes back, whole, exactly when its text has no line end inside; otherwise it is an error. */
  lemma BulkComesBack(text: string, rest: string)
    requires |Piece(text)| < 0x8000_0000
    ensures ParseReply(Piece(text) + rest) ==
            if NoCrlf(text) then Parsed(0, false, |Piece(text)|, "1" + [SEP] + text) else Parsed(-1, false, 0, "")
  {
    var reply := Piece(text) + rest;
    assert reply[0..0 + |Piece(text)|] == Piece(text);
    var second := BulkFound(reply, text);
    BulkGiven(reply, LineEnd(0, text), |text|, second);
  }

  /** What the searches find in a bulk string at the front. */
  lemma BulkFound(reply: string, text: string) returns (second: nat)
    requires |Piece(text)| < 0x8000_0000 && |Piece(text)| <= |reply| && reply[0..0 + |Piece(text)|] == Piece(text)
    ensures var c := LineEnd(0, text);
            reply != "" && reply[0] == '$' && FindCrlf(reply, 0) == Some(c) && FindCrlf(reply, c + 1) == Some(second) &&
            c + 2 <= second <= c + 2 + |text| && (second == c + 2 + |text| <==> NoCrlf(text)) &&
            Strtol(reply, 1) == (|text|, c) && c + 2 + |text| + 2 == |Piece(text)| <= |reply| &&
            reply[c + 2..c + 2 + |text|] == text
  {
    var c := LineEnd(0, text);
    PieceLies(reply, 0, text);
    LineEndFound(reply, 0, text);
    TextEndFound(reply, c, text);
    StrtolDecimal(reply, 1, |text|);
    second := FindCrlf(reply, c + 1).value;
  }

  /** ParseReply on a bulk string, once its searches have found what they look for. */
  lemma BulkGiven(reply: string, c: nat, len: nat, second: nat)
    requires reply != "" && reply[0] == '$' && FindCrlf(reply, 0) == Some(c)
    requires Strtol(reply, 1).0 == len < LONG_MAX && Strtol(reply, 1).1 != 1
    requires FindCrlf(reply, c + 1) == Some(second) && c + 2 <= second < c + 0x8000_0000
    ensures ParseReply(reply) ==
            if second - c - 2 == len then Parsed(0, false, second + 2, "1" + [SEP] + reply[c + 2..second])
            else Parsed(-1, false, 0, "")
  {
    ToIntExact(second - c);
  }

  /** A bulk string cut short anywhere asks for more. */
  lemma BulkWaits(text: string, m: nat)
    requires NoCrlf(text) && |Piece(text)| < 0x8000_0000 && 0 < m < |Piece(text)|
    ensures ParseReply(Piece(text)[..m]).code == 1
  {
    var reply, c := Piece(text)[..m], LineEnd(0, text);
    PieceShape(text);
    assert CutAt(reply, 0, text);
    if m < c + 2 {
      LineMissing(reply, 0, text);
    } else {
      LineDone(reply, 0, text);
      TextCut(reply, 0, text);
      BulkWaitsGiven(reply, c, |text|);
    }
  }

  lemma LineMissing(reply: string, a: nat, seg: string)
    requires CutAt(reply, a, seg) && |reply| < LineEnd(a, seg) + 2
    ensures FindCrlf(reply, a) == None
  {
    var p, c := Piece(seg), LineEnd(a, seg);
    PieceShape(seg);
    forall i | a <= i < |reply| ensures !IsCrlf(reply, i) {
      if a < i < c { assert p[i - a] == p[1..c - a][i - a - 1]; }
    }
    NoneFound(reply, a);
  }

  lemma BulkWaitsGiven(reply: string, c: nat, len: nat)
    requires reply != "" && reply[0] == '$' && FindCrlf(reply, 0) == Some(c) && FindCrlf(reply, c + 1) == None
    requires Strtol(reply, 1).0 == len < LONG_MAX && Strtol(reply, 1).1 != 1
    ensures ParseReply(reply).code == 1
  {
  }

  // ---------------------------------------------------------------- null and nothing

  /** strtol reads "-1". */
  lemma StrtolMinusOne(s: string, i: nat)
    requires i + 2 < |s| && s[i] == '-' && s[i + 1] == '1' && !IsDigit(s[i + 2])
    ensures Strtol(s, i) == (-1, i + 2)
  {
    assert Scan(s, i + 1, 0) == Scan(s, i + 2, 1) == (1, i + 2);
  }

  lemma MinusOneLine(first: char, rest: string)
    requires first == '$' || first == '*'
    ensures ParseReply([first] + "-1" + CRLF + rest) == Parsed(0, false, 5, "0")
  {
    var reply := [first] + "-1" + CRLF + rest;
    LineCloses([first] + "-1", rest);
    assert reply[1] == '-' && reply[2] == '1' && reply[3] == '\r';
    StrtolMinusOne(reply, 1);
  }

  /** The null bulk string, for a key that is not there, and the null array are an answer without a value. */
  lemma NullIsNothing(rest: string)
    ensures ParseReply("$-1" + CRLF + rest) == Parsed(0, false, 5, "0")
    ensures ParseReply("*-1" + CRLF + rest) == Parsed(0, false, 5, "0")
  {
    assert ['$'] + "-1" == "$-1" && ['*'] + "-1" == "*-1";
    MinusOneLine('$', rest);
    MinusOneLine('*', rest);
  }

  /** A null bulk string inside an array is told from every text, and takes five bytes. */
  lemma NullSegment(reply: string, a: nat)
    requires a + 5 <= |reply| && reply[a..a + 5] == "$-1" + CRLF
    ensures ParseSeg(reply, a) == Seg(0, 5, "__null")
  {
    var p := "$-1" + CRLF;
    forall i | 0 <= i < 5 ensures reply[a + i] == p[i] {
      assert reply[a + i] == reply[a..a + 5][i];
    }
    assert reply[a] == '$' && reply[a + 1] == '-' && reply[a + 2] == '1';
    assert reply[a + 3] == '\r' && reply[a + 4] == '\n';
    FirstCrlf(reply, a);
    assert IsCrlf(reply, a + 3) && !IsCrlf(reply, a) && !IsCrlf(reply, a + 1) && !IsCrlf(reply, a + 2);
    StrtolMinusOne(reply, a + 1);
  }

  // ---------------------------------------------------------------- refusals

  /** An empty text inside an array is an error, although as a reply of its own it comes back. */
  lemma EmptySegmentRefused(reply: string, a: nat)
    requires a + |Piece("")| <= |reply| && reply[a..a + |Piece("")|] == Piece("")
    ensures ParseSeg(reply, a) == Seg(-1, 0, "")
  {
    PieceLies(reply, a, "");
    LineEndFound(reply, a, "");
    StrtolDecimal(reply, a + 1, 0);
  }

  /** A reply with a line end that starts with none of the five marks is an error, and so is no reply. */
  lemma OtherRefused(reply: string)
    requires reply == "" || (reply[0] !in "*$:+-" && FindCrlf(reply, 0).Some?)
    ensures ParseReply(reply) == Parsed(-1, false, 0, "")
  {
  }

  /** A count or a length that is not a number is an error. */
  lemma NotANumberRefused(reply: string)
    requires reply != "" && reply[0] in "*$" && FindCrlf(reply, 0).Some?
    requires |reply| > 1 && !IsDigit(reply[1]) && !IsSpace(reply[1]) && reply[1] !in "+-"
    ensures ParseReply(reply) == Parsed(-1, false, 0, "")
  {
    assert Scan(reply, 1, 0) == (0, 1);
  }

  /** strtol on a number of any size, with or without a sign: it is clamped to a long. */
  lemma StrtolClamps(s: string, i: nat, negative: bool, n: nat)
    requires var k := if negative then i + 1 else i;
             k + |Decimal(n)| < |s| && s[k..k + |Decimal(n)|] == Decimal(n) && !IsDigit(s[k + |Decimal(n)|]) &&
             (negative ==> s[i] == '-')
    ensures Strtol(s, i).1 > i
    ensures Strtol(s, i).0 == if negative then (if n > LONG_MAX + 1 then -LONG_MAX - 1 else 0 - n)
                              else (if n > LONG_MAX then LONG_MAX else n)
  {
    var k := if negative then i + 1 else i;
    ScanDecimal(s, k, n);
    assert s[k] == Decimal(n)[0];
  }

  /** The first line of an array with this count. */
  function CountLine(negative: bool, n: nat): (s: string) { (if negative then "*-" else "*") + Decimal(n) }

  lemma CountLineShape(negative: bool, n: nat, rest: string)
    ensures var reply, k := CountLine(negative, n) + CRLF + rest, if negative then 2 else 1;
            reply[0] == '*' && (negative ==> reply[1] == '-') && k + |Decimal(n)| < |reply| &&
            reply[k..k + |Decimal(n)|] == Decimal(n) && reply[k + |Decimal(n)|] == '\r' && FindCrlf(reply, 0).Some?
  {
    var line, k := CountLine(negative, n), if negative then 2 else 1;
    var reply := line + CRLF + rest;
    assert line[k..] == Decimal(n);
    forall i | 0 <= i < |line| ensures !IsCrlf(line, i) {
      if k <= i { assert line[i] == line[k..][i - k]; }
    }
    LineCloses(line, rest);
    assert reply[k..k + |Decimal(n)|] == line[k..];
    assert reply[|line|] == '\r';
  }

  /** A count that no array can have is an error: too large for a long, zero, or negative other than -1. */
  lemma CountRefused(negative: bool, n: nat, rest: string)
    requires if negative then n != 1 else n == 0 || LONG_MAX <= n
    ensures ParseReply(CountLine(negative, n) + CRLF + rest) == Parsed(-1, false, 0, "")
  {
    CountLineShape(negative, n, rest);
    StrtolClamps(CountLine(negative, n) + CRLF + rest, 1, negative, n);
  }
}
