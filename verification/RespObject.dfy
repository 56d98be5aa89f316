/** RedisParser's own loops, proved to compute what module Resp says. */
module RedisParser {
  import opened Options
  import opened Machine
  import opened Resp
  import opened RespProofs

  lemma {:induction false} BodyAppend(segs: seq<string>, seg: string)
    ensures Body(segs + [seg]) == Body(segs) + Piece(seg)
  {
    if segs == [] {
      assert [] + [seg] == [seg];
      assert Body([seg]) == Piece(seg) + Body([]);
    } else {
      assert (segs + [seg])[1..] == segs[1..] + [seg];
      BodyAppend(segs[1..], seg);
    }
  }

  lemma BodyGrows(segs: seq<string>, seg: string)
    ensures CRLF + Body(segs) + Piece(seg) == CRLF + Body(segs + [seg])
  {
    BodyAppend(segs, seg);
  }

  /** What is left to split, put after what has been split. */
  function Onto(done: seq<string>, rest: Option<seq<string>>): (r: Option<seq<string>>) {
    if rest.None? then None else Some(done + rest.value)
  }

  lemma OntoStep(done: seq<string>, s: string, follower: nat, leader: nat)
    requires follower < leader < |s| && FindChar(s, SEP, follower) == Some(leader)
    ensures Onto(done, SegmentsFrom(s, follower)) == Onto(done + [s[follower..leader]], SegmentsFrom(s, leader + 1))
  {
    var rest := SegmentsFrom(s, leader + 1);
    if rest.Some? {
      assert done + ([s[follower..leader]] + rest.value) == done + [s[follower..leader]] + rest.value;
    }
  }

  lemma OntoEnd(done: seq<string>, s: string, follower: nat)
    requires follower <= |s| && FindChar(s, SEP, follower) == None
    ensures Onto(done, SegmentsFrom(s, follower)) == Some(if follower == |s| then done else done + [s[follower..|s|]])
  {
    if follower == |s| { assert done + [] == done; } else { assert s[follower..] == s[follower..|s|]; }
  }

  lemma OntoNothing(rest: Option<seq<string>>)
    ensures Onto([], rest) == rest
  {
    if rest.Some? { assert [] + rest.value == rest.value; }
  }

  /** A command line as an array of bulk strings; refused when empty or with an empty segment before a separator. */
  method ParseCmd(input: string) returns (ok: bool, out: string)
    ensures ok <==> Resp.ParseCmd(input).Some?
    ensures ok ==> out == Resp.ParseCmd(input).value
  {
    ok, out := false, "";
    if |input| == 0 { return; }
    var result, follower, segs := CRLF, 0, 0;
    ghost var done: seq<string> := [];
    ghost var all := SegmentsFrom(input, 0);
    OntoNothing(all);
    var more := true;
    while more
      invariant follower <= |input| && segs == |done| && result == CRLF + Body(done)
      invariant if more then all == Onto(done, SegmentsFrom(input, follower)) else all == Some(done)
      decreases more, |input| - follower
    {
      var leader := FindChar(input, SEP, follower);
      if leader == Some(follower) { return; }
      var len := if leader.Some? then leader.value - follower else |input| - follower;
      if len == 0 {
        OntoEnd(done, input, follower);
        more := false;
      } else {
        var seg := input[follower..follower + len];
        segs := segs + 1;
        result := result + Piece(seg);
        BodyGrows(done, seg);
        if leader.Some? {
          OntoStep(done, input, follower, leader.value);
          follower := leader.value + 1;
        } else {
          OntoEnd(done, input, follower);
          more := false;
        }
        done := done + [seg];
      }
    }
    out := "*" + Decimal(segs) + result;
    ok := true;
    EncodedIs(done);
  }

  lemma EncodedIs(segs: seq<string>)
    ensures "*" + Decimal(|segs|) + (CRLF + Body(segs)) == Encoded(segs)
  {
  }

  /** The reply at the front of `reply`. What it appends is `r.out`; `r.size` has a meaning only when `r.code` is 0. */
  method ParseReply(reply: string) returns (r: Parsed)
    ensures r == Resp.ParseReply(reply)
  {
    r := Parsed(-1, false, 0, "");
    if reply == "" { return; }
    var cr := FindCrlf(reply, 0);
    if cr.None? { return Parsed(1, false, 0, ""); }
    var idx := cr.value;
    match reply[0] {
      case '*' =>
        var (num, end) := Strtol(reply, 1);
        if num == LONG_MAX || num == -LONG_MAX - 1 || end == 1 { return; }
        if num > 0 {
          r := ParseArray(reply, num);
        } else if num == -1 {
          r := Parsed(0, false, idx + 2, "0");
        }
      case '$' =>
        var (len, end) := Strtol(reply, 1);
        if len == LONG_MAX || len == -LONG_MAX - 1 || end == 1 { return; }
        if len == -1 { return Parsed(0, false, idx + 2, "0"); }
        var second := FindCrlf(reply, idx + 1);
        if second.None? { return Parsed(1, false, 0, ""); }
        if ToInt(second.value - idx) == 2 + len {
          r := Parsed(0, false, second.value + 2, "1" + [SEP] + Substr(reply, idx + 2, len));
        }
      case ':' => r := Parsed(0, false, idx + 2, "1" + [SEP] + reply[1..idx]);
      case '+' => r := Parsed(0, |reply| >= 5 && ContainsFrom(reply, "PONG", 0), idx + 2, "0");
      case '-' => r := Parsed(0, false, idx + 2, "__null");
      case _ =>
    }
  }

  /** The loop over the segments of an array of `num`. */
  method ParseArray(reply: string, num: nat) returns (r: Parsed)
    requires 0 < num
    ensures r == ParseSegs(reply, 0, num, 0, Decimal(num) + [SEP])
  {
    var out := Decimal(num) + [SEP];
    var dollar, size, i := 0, 0, 0;
    ghost var whole := ParseSegs(reply, 0, num, 0, out);
    while i < num
      invariant i <= num
      invariant i < num ==> whole == ParseSegs(reply, i, num, dollar, out)
      invariant i == num ==> 0 < dollar && whole == Parsed(0, false, dollar + size - 1, out)
    {
      var code;
      code, dollar, size, out := ParseNext(reply, i, num, dollar, out);
      if code != 0 { return Parsed(code, false, 0, out); }
      i := i + 1;
    }
    return Parsed(0, false, dollar + size - 1, out);
  }

  /** One round of that loop: the return code, where the search goes on, the size of the segment and the text so far. */
  method ParseNext(reply: string, i: nat, num: nat, idx: nat, out: string)
    returns (code: int, next: nat, size: nat, longer: string)
    requires i < num
    ensures code != 0 ==> longer == out && ParseSegs(reply, i, num, idx, out) == Parsed(code, false, 0, out)
    ensures code == 0 ==> 0 < next
    ensures code == 0 && i < num - 1 ==>
            ParseSegs(reply, i, num, idx, out) == ParseSegs(reply, i + 1, num, next, longer)
    ensures code == 0 && i == num - 1 ==>
            ParseSegs(reply, i, num, idx, out) == Parsed(0, false, next + size - 1, longer)
  {
    var found := FindChar(reply, '$', idx);
    if found.None? { return 1, idx, 0, out; }
    var seg := ParseSeg(reply, found.value);
    if seg.code != 0 { return seg.code, idx, 0, out; }
    NextSegment(reply, i, num, idx, out, found.value);
    longer := out + seg.text;
    if i != num - 1 { longer := longer + [SEP]; }
    return 0, found.value + 1, seg.size, longer;
  }
}
