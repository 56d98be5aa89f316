/** The Redis protocol (RESP): RedisParser::ParseCmd, which turns a command line into an array of bulk strings, and
    ParseReply, which takes such a reply apart. Strings are sequences of bytes; a text ends where its string ends. */
module Resp {
  import opened Options
  import opened Machine

  const SEP: char := '\U{0001}'      // RedisParser::kSep
  const CRLF: string := "\r\n"
  const LONG_MAX: int := 0x7FFF_FFFF_FFFF_FFFF

  // ---------------------------------------------------------------- the C library

  /** std::string::find of one character. */
  function FindChar(s: string, c: char, from: nat): (r: Option<nat>)
    ensures r.Some? ==> from <= r.value < |s|
    decreases |s| - from
  {
    if |s| <= from then None else if s[from] == c then Some(from) else FindChar(s, c, from + 1)
  }

  predicate IsCrlf(s: string, i: int) { 0 <= i < |s| - 1 && s[i] == '\r' && s[i + 1] == '\n' }

  /** std::string::find of a line end. */
  function FindCrlf(s: string, from: nat): (r: Option<nat>)
    ensures r.Some? ==> from <= r.value < |s| - 1
    decreases |s| - from
  {
    if |s| <= from + 1 then None else if IsCrlf(s, from) then Some(from) else FindCrlf(s, from + 1)
  }

  predicate IsDigit(c: char) { '0' <= c <= '9' }

  predicate IsSpace(c: char) { c == ' ' || '\t' <= c <= '\r' }

  function DigitValue(c: char): (d: nat)
    requires IsDigit(c)
    ensures d < 10
  {
    c as int - '0' as int
  }

  function DigitChar(d: nat): (c: char)
    requires d < 10
    ensures IsDigit(c) && DigitValue(c) == d
  {
    ('0' as int + d) as char
  }

  function SkipSpace(s: string, i: nat): (r: nat)
    ensures i <= r
    decreases |s| - i
  {
    if i < |s| && IsSpace(s[i]) then SkipSpace(s, i + 1) else i
  }

  /** Reads digits, most significant first: the value and where they end. */
  function Scan(s: string, i: nat, acc: nat): (r: (nat, nat))
    decreases |s| - i
  {
    if i < |s| && IsDigit(s[i]) then Scan(s, i + 1, 10 * acc + DigitValue(s[i])) else (acc, i)
  }

  /** strtol in base 10: the value, clamped to a long, and the index of the first character not used. */
  function Strtol(s: string, i: nat): (r: (int, nat)) {
    var j := SkipSpace(s, i);
    var negative := j < |s| && s[j] == '-';
    var k := if j < |s| && (s[j] == '-' || s[j] == '+') then j + 1 else j;
    var (v, e) := Scan(s, k, 0);
    if e == k then (0, i)
    else if negative then (if v > LONG_MAX + 1 then -LONG_MAX - 1 else -(v as int), e)
    else (if v > LONG_MAX then LONG_MAX else v, e)
  }

  /** sprintf of an unsigned number. */
  function Decimal(n: nat): (s: string)
    ensures |s| >= 1 && forall i :: 0 <= i < |s| ==> IsDigit(s[i])
  {
    if n < 10 then [DigitChar(n)] else Decimal(n / 10) + [DigitChar(n % 10)]
  }

  /** std::string::substr, with the length converted to a size. */
  function Substr(s: string, pos: nat, len: int): (r: string)
    requires pos <= |s|
  {
    if len < 0 || pos + len > |s| then s[pos..] else s[pos..pos + len]
  }

  // ---------------------------------------------------------------- ParseCmd

  /** The segments from `follower` on; None when one is empty before a separator. */
  function SegmentsFrom(s: string, follower: nat): (r: Option<seq<string>>)
    requires follower <= |s|
    decreases |s| - follower
  {
    var leader := FindChar(s, SEP, follower);
    if leader == Some(follower) then None
    else if leader.None? then Some(if follower == |s| then [] else [s[follower..]])
    else
      match SegmentsFrom(s, leader.value + 1)
      case None => None
      case Some(rest) => Some([s[follower..leader.value]] + rest)
  }

  /** One bulk string. */
  function Piece(seg: string): (s: string) { "$" + Decimal(|seg|) + CRLF + seg + CRLF }

  function Body(segs: seq<string>): (s: string) { if segs == [] then "" else Piece(segs[0]) + Body(segs[1..]) }

  function Head(n: nat): (s: string) { "*" + Decimal(n) + CRLF }

  function Encoded(segs: seq<string>): (s: string) { Head(|segs|) + Body(segs) }

  function ParseCmd(s: string): (r: Option<string>) {
    if s == "" then None
    else
      match SegmentsFrom(s, 0)
      case None => None
      case Some(segs) => Some(Encoded(segs))
  }

  // ---------------------------------------------------------------- ParseReply

  /** Return code (0 done, 1 more needed, -1 error), whether it is a PONG, the size of the reply, what was appended. */
  datatype Parsed = Parsed(code: int, isPong: bool, size: nat, out: string)

  /** One bulk string of an array: return code, size, text. */
  datatype Seg = Seg(code: int, size: nat, text: string)

  /** ParseReplySeg_, at the '$' at `start`. */
  function ParseSeg(reply: string, start: nat): (r: Seg) {
    var cr := FindCrlf(reply, start);
    if cr.None? then Seg(1, 0, "")
    else
      var (len, end) := Strtol(reply, start + 1);
      if len == -1 then Seg(0, cr.value + 2 - start, "__null")
      else if len == LONG_MAX || len == -LONG_MAX - 1 || end == 3 || len <= 0 then Seg(-1, 0, "")
      else
        var second := FindCrlf(reply, cr.value + 1);
        if second.None? then Seg(1, 0, "")
        else if ToInt(second.value - cr.value - 2) != len then Seg(-1, 0, "")
        else Seg(0, second.value + 2 - start, Substr(reply, cr.value + 2, len))
  }

  /** The loop over the segments of an array, from the i-th of n, with the next '$' looked for from `idx`. `size` is the
      size so far. */
  function ParseSegs(reply: string, i: nat, n: nat, idx: nat, out: string): (r: Parsed)
    requires i < n
    decreases n - i
  {
    var dollar := FindChar(reply, '$', idx);
    if dollar.None? then Parsed(1, false, 0, out)
    else
      var seg := ParseSeg(reply, dollar.value);
      if seg.code != 0 then Parsed(seg.code, false, 0, out)
      else if i == n - 1 then Parsed(0, false, dollar.value + seg.size, out + seg.text)
      else ParseSegs(reply, i + 1, n, dollar.value + 1, out + seg.text + [SEP])
  }

  predicate ContainsFrom(s: string, t: string, i: nat)
    decreases |s| - i
  {
    i + |t| <= |s| && (s[i..i + |t|] == t || (i < |s| && ContainsFrom(s, t, i + 1)))
  }

  function ParseReply(reply: string): (r: Parsed) {
    var none := Parsed(-1, false, 0, "");
    if reply == "" then none
    else
      var cr := FindCrlf(reply, 0);
      if cr.None? then Parsed(1, false, 0, "")
      else
        var idx := cr.value;
        match reply[0]
        case '*' =>
          var (num, end) := Strtol(reply, 1);
          if num == LONG_MAX || num == -LONG_MAX - 1 || end == 1 then none
          else if num <= 0 then (if num == -1 then Parsed(0, false, idx + 2, "0") else none)
          else ParseSegs(reply, 0, num, 0, Decimal(num) + [SEP])
        case '$' =>
          var (len, end) := Strtol(reply, 1);
          if len == LONG_MAX || len == -LONG_MAX - 1 || end == 1 then none
          else if len == -1 then Parsed(0, false, idx + 2, "0")
          else
            var second := FindCrlf(reply, idx + 1);
            if second.None? then Parsed(1, false, 0, "")
            else if ToInt(second.value - idx) != 2 + len then none
            else Parsed(0, false, second.value + 2, "1" + [SEP] + Substr(reply, idx + 2, len))
        case ':' => Parsed(0, false, idx + 2, "1" + [SEP] + reply[1..idx])
        case '+' => Parsed(0, |reply| >= 5 && ContainsFrom(reply, "PONG", 0), idx + 2, "0")
        case '-' => Parsed(0, false, idx + 2, "__null")
        case _ => none
  }
}
