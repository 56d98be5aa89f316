/** The rapid protocol: frames of an eight-byte header (magic number, version, size, in network order) and a payload.
    ProtocolWriteRapid writes them; ProtocolReadRapid collects one from reads that return whatever has come in. */
module Rapid {
  import opened Machine

  type byte = x: int | 0 <= x < 256

  const MAGIC: nat := 58764
  const MAX_VERSION: nat := 10
  const HEADER: nat := 8
  const END: int := -100            // ProtocolRead::kEnd
  const WORD: nat := 0x1_0000_0000

  // ---------------------------------------------------------------- byte order

  function Net16(n: nat): (b: seq<byte>)
    requires n < 65536
    ensures |b| == 2
  {
    [n / 256, n % 256]
  }

  function Net32(n: nat): (b: seq<byte>)
    requires n < WORD
    ensures |b| == 4
  {
    Net16(n / 65536) + Net16(n % 65536)
  }

  /** The number that bytes in network order stand for. */
  function NetValue(b: seq<byte>): (n: nat) {
    if b == [] then 0 else 256 * NetValue(b[..|b| - 1]) + b[|b| - 1]
  }

  /** ntohs and ntohl as they change the bytes in memory: on a little-endian host they reverse them. */
  function Swap(little: bool, b: seq<byte>): (r: seq<byte>)
    ensures |r| == |b|
  {
    if little then seq(|b|, i requires 0 <= i < |b| => b[|b| - 1 - i]) else b
  }

  /** The number a field of the header holds, as the host reads it. */
  function HostValue(little: bool, b: seq<byte>): (n: nat) { NetValue(Swap(little, b)) }

  /** A field holds its network value once it has been converted. */
  lemma Converted(little: bool, b: seq<byte>)
    ensures HostValue(little, Swap(little, b)) == NetValue(b)
  {
    assert Swap(little, Swap(little, b)) == b;
  }

  lemma ValueOfTwo(b: seq<byte>)
    requires |b| == 2
    ensures NetValue(b) == 256 * (b[0] as int) + b[1]
  {
    assert b[..1][..0] == [];
    assert NetValue(b[..1]) == 256 * NetValue(b[..1][..0]) + b[0];
  }

  lemma ValueOfFour(b: seq<byte>)
    requires |b| == 4
    ensures NetValue(b) == 65536 * NetValue(b[..2]) + NetValue(b[2..])
  {
    ValueOfTwo(b[2..]);
    assert b[..3][..2] == b[..2];
    assert NetValue(b[..3]) == 256 * NetValue(b[..2]) + b[2];
  }

  lemma Net16Value(n: nat)
    requires n < 65536
    ensures NetValue(Net16(n)) == n
  {
    ValueOfTwo(Net16(n));
  }

  lemma Net32Value(n: nat)
    requires n < WORD
    ensures NetValue(Net32(n)) == n
  {
    var b := Net32(n);
    ValueOfFour(b);
    assert b[..2] == Net16(n / 65536) && b[2..] == Net16(n % 65536);
    Net16Value(n / 65536);
    Net16Value(n % 65536);
  }

  // ---------------------------------------------------------------- frames

  /** A frame of any magic number and version, as some peer may send it. */
  function Frame(magic: nat, version: nat, payload: seq<byte>): (b: seq<byte>)
    requires magic < 65536 && version < 65536
    ensures |b| == HEADER + |payload|
  {
    Net16(magic) + Net16(version) + Net32(|payload| % WORD) + payload
  }

  /** ProtocolWriteRapid::Encode, and the two buffers it then writes. */
  function Encode(payload: seq<byte>): (b: seq<byte>)
    ensures |b| == HEADER + |payload|
  {
    Frame(MAGIC, 0, payload)
  }

  // ---------------------------------------------------------------- the reader

  datatype Reader = Reader(buffer: seq<byte>, inHeader: bool)

  const FRESH: Reader := Reader([], true)     // after Reset

  function Size(little: bool, buffer: seq<byte>): (n: nat)
    requires HEADER <= |buffer|
  {
    HostValue(little, buffer[4..8])
  }

  predicate Reading(little: bool, r: Reader) {
    if r.inHeader then |r.buffer| <= HEADER
    else HEADER <= |r.buffer| <= HEADER + Size(little, r.buffer)
  }

  /** Bytes the reader asks for. */
  function Wanted(little: bool, r: Reader): (n: nat)
    requires Reading(little, r)
  {
    if r.inHeader then HEADER - |r.buffer| else HEADER + Size(little, r.buffer) - |r.buffer|
  }

  /** A read of the socket: an error, or as many bytes as it chooses of those wanted and there. */
  function Got(answer: int, wanted: nat, there: nat): (n: int)
    ensures n <= wanted && n <= there && (answer <= 0 ==> n == answer)
    ensures 0 < answer && 0 < wanted && 0 < there ==> 0 < n
  {
    if answer <= 0 then answer
    else if wanted <= there then (if answer <= wanted then answer else wanted)
    else (if answer <= there then answer else there)
  }

  function Answer(answers: seq<int>): (a: int) { if answers == [] then 0 else answers[0] }

  /** The header with its size converted in place. */
  function SizeConverted(little: bool, b: seq<byte>): (r: seq<byte>)
    requires HEADER <= |b|
    ensures |r| == |b|
  {
    b[..4] + Swap(little, b[4..8]) + b[8..]
  }

  datatype Outcome = Outcome(reader: Reader, stream: seq<byte>, code: int)

  lemma SameField(b: seq<byte>, d: seq<byte>)
    requires HEADER <= |b|
    ensures (b + d)[4..8] == b[4..8]
  {
  }

  /** The reader with the bytes it got. */
  function Stored(little: bool, r: Reader, data: seq<byte>): (s: Reader)
    requires Reading(little, r) && |data| <= Wanted(little, r)
    ensures Reading(little, s)
  {
    var buffer := r.buffer + data;
    if !r.inHeader then
      SameField(r.buffer, data);
      Reader(buffer, false)
    else if |buffer| == HEADER then Reader(SizeConverted(little, buffer), false)
    else Reader(buffer, true)
  }

  /** ProtocolReadRapid::Read: `answers` are the results of its reads of the socket, none left meaning that nothing has
      come in; `any` says whether it has read some bytes already. */
  function Read(little: bool, r: Reader, stream: seq<byte>, answers: seq<int>, any: bool): (o: Outcome)
    requires Reading(little, r)
    ensures Reading(little, o.reader)
    decreases |answers|
  {
    var wanted := Wanted(little, r);
    var got := Got(Answer(answers), wanted, |stream|);
    if got < 0 then Outcome(r, stream, got)
    else if got == 0 then Outcome(r, stream, if any then ToInt(wanted) else END)
    else
      var s := Stored(little, r, stream[..got]);
      if r.inHeader then Read(little, s, stream[got..], answers[1..], true)
      else Outcome(s, stream[got..], ToInt(wanted - got))
  }

  /** Reads again, on every event, while more is asked for. */
  function ReadAll(little: bool, r: Reader, stream: seq<byte>, calls: seq<seq<int>>): (o: Outcome)
    requires Reading(little, r)
    ensures Reading(little, o.reader)
    decreases |calls|
  {
    if calls == [] then Outcome(r, stream, 1)
    else
      var o := Read(little, r, stream, calls[0], false);
      if o.code > 0 then ReadAll(little, o.reader, o.stream, calls[1..]) else o
  }

  /** Decode converts the other two fields in place and checks them. */
  function Decoded(little: bool, b: seq<byte>): (r: (seq<byte>, bool))
    requires HEADER <= |b|
    ensures |r.0| == |b|
  {
    var c := Swap(little, b[..2]) + Swap(little, b[2..4]) + b[4..];
    (c, HostValue(little, c[..2]) == MAGIC && HostValue(little, c[2..4]) <= MAX_VERSION)
  }

  // ---------------------------------------------------------------- where the reader is

  /** The reader that has taken the first p bytes of `wire`. */
  function At(little: bool, wire: seq<byte>, p: nat): (r: Reader)
    requires p <= |wire|
  {
    if p < HEADER then Reader(wire[..p], true) else Reader(SizeConverted(little, wire[..p]), false)
  }

  /** `wire` starts with a frame of this payload; its magic number and version may be anything. */
  ghost predicate Carries(wire: seq<byte>, payload: seq<byte>) {
    |payload| < WORD && HEADER + |payload| <= |wire| && wire[4..8] == Net32(|payload|) &&
    wire[HEADER..HEADER + |payload|] == payload
  }

  lemma FrameParts(magic: nat, version: nat, payload: seq<byte>, rest: seq<byte>)
    requires magic < 65536 && version < 65536 && |payload| < WORD
    ensures var wire := Frame(magic, version, payload) + rest;
            Carries(wire, payload) && NetValue(wire[..2]) == magic && NetValue(wire[2..4]) == version &&
            wire[HEADER + |payload|..] == rest
  {
    var wire := Frame(magic, version, payload) + rest;
    SmallSize(|payload|);
    assert wire[..2] == Net16(magic);
    assert wire[2..4] == Net16(version);
    assert wire[4..8] == Net32(|payload|);
    Net16Value(magic);
    Net16Value(version);
  }

  lemma SmallSize(n: nat)
    requires n < WORD
    ensures n % WORD == n
  {
  }

  /** Bytes a reader at p asks for. */
  function Left(payload: seq<byte>, p: nat): (n: nat)
    requires p <= HEADER + |payload|
  {
    if p < HEADER then HEADER - p else HEADER + |payload| - p
  }

  lemma SizeField(little: bool, wire: seq<byte>, p: nat)
    requires HEADER <= p <= |wire|
    ensures SizeConverted(little, wire[..p])[4..8] == Swap(little, wire[4..8])
  {
    var b, field := wire[..p], Swap(little, wire[4..8]);
    assert b[4..8] == wire[4..8];
    FieldBetween(b[..4], field, b[8..]);
  }

  lemma FieldBetween(a: seq<byte>, field: seq<byte>, c: seq<byte>)
    ensures (a + field + c)[|a|..|a| + |field|] == field
  {
  }

  /** Past the header the reader knows the size. */
  lemma AtReads(little: bool, wire: seq<byte>, payload: seq<byte>, p: nat)
    requires Carries(wire, payload) && p <= HEADER + |payload|
    ensures Reading(little, At(little, wire, p))
    ensures Wanted(little, At(little, wire, p)) == Left(payload, p)
  {
    if HEADER <= p {
      Net32Value(|payload|);
      SizeField(little, wire, p);
      Converted(little, wire[4..8]);
    }
  }

  lemma AtStores(little: bool, wire: seq<byte>, payload: seq<byte>, p: nat, n: nat)
    requires Carries(wire, payload) && p <= HEADER + |payload|
    requires Reading(little, At(little, wire, p)) && n <= Wanted(little, At(little, wire, p)) && p + n <= |wire|
    ensures Stored(little, At(little, wire, p), wire[p..][..n]) == At(little, wire, p + n)
    ensures wire[p..][n..] == wire[p + n..]
  {
    assert wire[p..][..n] == wire[p..p + n];
    assert wire[..p] + wire[p..p + n] == wire[..p + n];
    if HEADER <= p { ConvertedOnce(little, wire[..p], wire[p..p + n]); }
  }

  /** Bytes after the header do not change how it is converted. */
  lemma ConvertedOnce(little: bool, b: seq<byte>, d: seq<byte>)
    requires HEADER <= |b|
    ensures SizeConverted(little, b + d) == SizeConverted(little, b) + d
  {
    assert (b + d)[..4] == b[..4];
    assert (b + d)[4..8] == b[4..8];
    assert (b + d)[8..] == b[8..] + d;
  }

  /** What a code says about a reader that has come from p to q, with `any` set if it had read before p. */
  ghost predicate CodeMeans(payload: seq<byte>, p: nat, q: nat, any: bool, answers: seq<int>, code: int)
    requires q <= HEADER + |payload|
  {
    || (code < 0 && code in answers)
    || (code == END && p == q && !any)
    || ((any || p < q) && code == ToInt(Left(payload, q)))
  }

  ghost predicate Moves(little: bool, wire: seq<byte>, payload: seq<byte>, p: nat, q: nat, any: bool,
                        answers: seq<int>, o: Outcome) {
    p <= q <= HEADER + |payload| && q <= |wire| && o.reader == At(little, wire, q) && o.stream == wire[q..] &&
    CodeMeans(payload, p, q, any, answers, o.code)
  }

  /** One call takes the reader further along the frame, never past its end, and loses nothing, whatever its reads of
      the socket return. */
  lemma {:induction false} ReadMoves(little: bool, wire: seq<byte>, payload: seq<byte>, p: nat, answers: seq<int>,
                                     any: bool)
    returns (q: nat)
    requires Carries(wire, payload) && p <= HEADER + |payload|
    ensures Reading(little, At(little, wire, p))
    ensures Moves(little, wire, payload, p, q, any, answers, Read(little, At(little, wire, p), wire[p..], answers, any))
    ensures p < HEADER + |payload| && 0 < Answer(answers) ==> p < q
    decreases |answers|
  {
    AtReads(little, wire, payload, p);
    var o := Read(little, At(little, wire, p), wire[p..], answers, any);
    var m := p;
    if p < HEADER { m := HeaderStep(little, wire, payload, p, answers, any, o); }
    if p < m {
      q := ReadMoves(little, wire, payload, m, answers[1..], true);
      MovesOn(little, wire, payload, p, m, q, any, answers, o);
    } else {
      q := LastStep(little, wire, payload, p, answers, any, o);
    }
  }

  /** A turn of the loop in the header that gets something is followed by another. */
  lemma HeaderStep(little: bool, wire: seq<byte>, payload: seq<byte>, p: nat, answers: seq<int>, any: bool, o: Outcome)
    returns (m: nat)
    requires Carries(wire, payload) && p < HEADER && Reading(little, At(little, wire, p))
    requires o == Read(little, At(little, wire, p), wire[p..], answers, any)
    ensures p <= m <= HEADER && (0 < Answer(answers) ==> p < m)
    ensures p < m ==> answers != [] && Reading(little, At(little, wire, m)) &&
                      o == Read(little, At(little, wire, m), wire[m..], answers[1..], true)
    ensures p == m ==> Answer(answers) <= 0
  {
    var got := StepAt(little, wire, payload, p, answers, any, o);
    m := if 0 < got then p + got else p;
  }

  /** Any other turn is the last. */
  lemma LastStep(little: bool, wire: seq<byte>, payload: seq<byte>, p: nat, answers: seq<int>, any: bool, o: Outcome)
    returns (q: nat)
    requires Carries(wire, payload) && p <= HEADER + |payload| && Reading(little, At(little, wire, p))
    requires o == Read(little, At(little, wire, p), wire[p..], answers, any) && (p < HEADER ==> Answer(answers) <= 0)
    ensures Moves(little, wire, payload, p, q, any, answers, o)
    ensures p < HEADER + |payload| && 0 < Answer(answers) ==> p < q
  {
    var got := StepAt(little, wire, payload, p, answers, any, o);
    if got <= 0 {
      q := p;
      MovesNot(little, wire, payload, p, any, answers, o);
    } else {
      q := p + got;
      MovesLast(little, wire, payload, p, q, any, answers, o);
    }
  }

  lemma MovesLast(little: bool, wire: seq<byte>, payload: seq<byte>, p: nat, q: nat, any: bool, answers: seq<int>,
                  o: Outcome)
    requires p < q <= HEADER + |payload| <= |wire| &&
             o == Outcome(At(little, wire, q), wire[q..], ToInt(Left(payload, q)))
    ensures Moves(little, wire, payload, p, q, any, answers, o)
  {
  }

  /** One turn of Read's loop, at p. */
  lemma StepAt(little: bool, wire: seq<byte>, payload: seq<byte>, p: nat, answers: seq<int>, any: bool, o: Outcome)
    returns (got: int)
    requires Carries(wire, payload) && p <= HEADER + |payload| && Reading(little, At(little, wire, p))
    requires o == Read(little, At(little, wire, p), wire[p..], answers, any)
    ensures got <= Left(payload, p) && (p < HEADER + |payload| && 0 < Answer(answers) ==> 0 < got)
    ensures (got < 0 ==> got == Answer(answers)) && (Answer(answers) <= 0 ==> got == Answer(answers))
    ensures got <= 0 ==>
            o == Outcome(At(little, wire, p), wire[p..],
                         if got < 0 then got else if any then ToInt(Left(payload, p)) else END)
    ensures 0 < got && p < HEADER ==>
            answers != [] && Reading(little, At(little, wire, p + got)) &&
            o == Read(little, At(little, wire, p + got), wire[p + got..], answers[1..], true)
    ensures 0 < got && HEADER <= p ==>
            o == Outcome(At(little, wire, p + got), wire[p + got..], ToInt(Left(payload, p + got)))
  {
    AtReads(little, wire, payload, p);
    var r, stream := At(little, wire, p), wire[p..];
    var wanted := Wanted(little, r);
    got := Got(Answer(answers), wanted, |stream|);
    ReadStep(little, r, stream, answers, any, wanted, got, o);
    if 0 < got {
      AtStores(little, wire, payload, p, got);
      AtReads(little, wire, payload, p + got);
    }
  }

  lemma MovesNot(little: bool, wire: seq<byte>, payload: seq<byte>, p: nat, any: bool, answers: seq<int>, o: Outcome)
    requires p <= HEADER + |payload| <= |wire| && o.reader == At(little, wire, p) &&
             o.stream == wire[p..]
    requires (o.code < 0 && o.code == Answer(answers)) || o.code == if any then ToInt(Left(payload, p)) else END
    ensures Moves(little, wire, payload, p, p, any, answers, o)
  {
  }

  lemma MovesOn(little: bool, wire: seq<byte>, payload: seq<byte>, p: nat, m: nat, q: nat, any: bool,
                answers: seq<int>, o: Outcome)
    requires p < m && answers != [] && Moves(little, wire, payload, m, q, true, answers[1..], o)
    ensures Moves(little, wire, payload, p, q, any, answers, o)
  {
  }

  /** One turn of Read's loop. */
  lemma ReadStep(little: bool, r: Reader, stream: seq<byte>, answers: seq<int>, any: bool, wanted: nat, got: int,
                 o: Outcome)
    requires Reading(little, r) && wanted == Wanted(little, r) && got == Got(Answer(answers), wanted, |stream|)
    requires o == Read(little, r, stream, answers, any)
    ensures if got <= 0 then o == Outcome(r, stream, if got < 0 then got else if any then ToInt(wanted) else END)
            else if r.inHeader then
              answers != [] && o == Read(little, Stored(little, r, stream[..got]), stream[got..], answers[1..], true)
            else o == Outcome(Stored(little, r, stream[..got]), stream[got..], ToInt(wanted - got))
  {
  }

  // ---------------------------------------------------------------- the frame comes out

  /** Decode answers true exactly for the right magic number and a version that is not too new, as the header came off
      the wire, on a host of either byte order; and it leaves the size and the payload alone. */
  lemma DecodesExactly(little: bool, b: seq<byte>)
    requires HEADER <= |b|
    ensures Decoded(little, b).1 <==> NetValue(b[..2]) == MAGIC && NetValue(b[2..4]) <= MAX_VERSION
    ensures Decoded(little, b).0[4..] == b[4..]
  {
    var c := Decoded(little, b).0;
    assert c[..2] == Swap(little, b[..2]) && c[2..4] == Swap(little, b[2..4]);
    Converted(little, b[..2]);
    Converted(little, b[2..4]);
  }

  lemma InFront(wire: seq<byte>, n: nat, i: nat, j: nat)
    requires i <= j <= n <= |wire|
    ensures wire[..n][i..j] == wire[i..j]
  {
  }

  /** A frame of which all bytes have been taken gives its payload and its size, and decodes exactly when its magic
      number and version are right. */
  lemma DecodesAt(little: bool, wire: seq<byte>, payload: seq<byte>)
    requires Carries(wire, payload)
    ensures var b := At(little, wire, HEADER + |payload|).buffer;
            HEADER <= |b| && Decoded(little, b).0[HEADER..] == payload &&
            Size(little, Decoded(little, b).0) == |payload| &&
            (Decoded(little, b).1 <==> NetValue(wire[..2]) == MAGIC && NetValue(wire[2..4]) <= MAX_VERSION)
  {
    var w := wire[..HEADER + |payload|];
    var b := SizeConverted(little, w);
    InFront(wire, |w|, 0, 2);
    InFront(wire, |w|, 2, 4);
    InFront(wire, |w|, 4, 8);
    InFront(wire, |w|, HEADER, |w|);
    assert w[HEADER..] == w[HEADER..|w|] && w[..2] == w[0..2] && wire[..2] == wire[0..2];
    assert b[..2] == w[..2] && b[2..4] == w[2..4] && b[4..8] == Swap(little, w[4..8]) && b[8..] == payload;
    DecodesExactly(little, b);
    var c := Decoded(little, b).0;
    assert c[4..8] == c[4..][..4] && c[8..] == c[4..][4..];
    assert b[4..8] == b[4..][..4] && b[8..] == b[4..][4..];
    Converted(little, w[4..8]);
    Net32Value(|payload|);
  }

  /** What one call says, for every size a header can hold: 0 only at the end of the frame, and at its end always 0
      unless a read of no bytes has failed; more, when fewer than 2^31 bytes are missing, and only after progress. */
  lemma CodeIs(payload: seq<byte>, p: nat, q: nat, answers: seq<int>, code: int)
    requires |payload| < WORD && p < HEADER + |payload| && p <= q <= HEADER + |payload|
    requires CodeMeans(payload, p, q, false, answers, code)
    ensures code == 0 ==> q == HEADER + |payload|
    ensures code > 0 ==> p < q < HEADER + |payload| && (HEADER <= q ==> HEADER + |payload| - q < 0x8000_0000)
    ensures (forall a :: a in answers ==> 0 <= a) && p < q ==>
            (code == 0 <==> q == HEADER + |payload|) &&
            (code > 0 <==> q < HEADER || 0 < HEADER + |payload| - q < 0x8000_0000)
  {
    ToIntExact(Left(payload, q));
  }

  /** However the bytes of a frame and what follows it come in, the first 0 is returned when exactly the frame has been
      taken: the rest is unread, and the frame decodes to its payload. */
  lemma {:induction false} ChunksDoNotMatter(little: bool, wire: seq<byte>, payload: seq<byte>, p: nat,
                                             calls: seq<seq<int>>)
    requires Carries(wire, payload) && p < HEADER + |payload|
    ensures Reading(little, At(little, wire, p))
    ensures var o := ReadAll(little, At(little, wire, p), wire[p..], calls);
            o.code == 0 ==> o.reader == At(little, wire, HEADER + |payload|) && o.stream == wire[HEADER + |payload|..]
    decreases |calls|
  {
    AtReads(little, wire, payload, p);
    if calls != [] {
      var q := ReadMoves(little, wire, payload, p, calls[0], false);
      CodeIs(payload, p, q, calls[0], Read(little, At(little, wire, p), wire[p..], calls[0], false).code);
      if Read(little, At(little, wire, p), wire[p..], calls[0], false).code > 0 {
        ChunksDoNotMatter(little, wire, payload, q, calls[1..]);
      }
    }
  }

  /** A read of the socket brings something whenever it is asked to, and none fails. */
  predicate Lively(call: seq<int>) { call != [] && forall i :: 0 <= i < |call| ==> 0 < call[i] }

  /** With lively calls a frame of less than 2^31 bytes is complete after at most as many calls as it has bytes. */
  lemma {:induction false} LivelyCompletes(little: bool, wire: seq<byte>, payload: seq<byte>, p: nat,
                                           calls: seq<seq<int>>)
    requires Carries(wire, payload) && |payload| < 0x8000_0000 && p < HEADER + |payload| <= p + |calls|
    requires forall i :: 0 <= i < |calls| ==> Lively(calls[i])
    ensures Reading(little, At(little, wire, p)) && ReadAll(little, At(little, wire, p), wire[p..], calls).code == 0
    decreases |calls|
  {
    AtReads(little, wire, payload, p);
    var call := calls[0];
    var o := Read(little, At(little, wire, p), wire[p..], call, false);
    var q := ReadMoves(little, wire, payload, p, call, false);
    assert Answer(call) == call[0];
    CodeIs(payload, p, q, call, o.code);
    if o.code > 0 { LivelyCompletes(little, wire, payload, q, calls[1..]); }
  }

  /** A frame of 2^31 bytes or more fails as soon as its header has come in alone: the number of missing bytes, returned
      as an int, is negative. */
  lemma HugeFails(little: bool, payload: seq<byte>, rest: seq<byte>, calls: seq<seq<int>>)
    requires 0x8000_0000 <= |payload| < WORD && calls != [] && calls[0] == [8]
    ensures ReadAll(little, FRESH, Encode(payload) + rest, calls).code < 0
  {
    var wire := Encode(payload) + rest;
    FrameParts(MAGIC, 0, payload, rest);
    assert At(little, wire, 0) == FRESH && wire[0..] == wire;
    AtReads(little, wire, payload, 0);
    HeaderAlone(little, wire, payload, Read(little, FRESH, wire, [8], false));
  }

  lemma HeaderAlone(little: bool, wire: seq<byte>, payload: seq<byte>, o: Outcome)
    requires Carries(wire, payload) && 0x8000_0000 <= |payload| && Reading(little, At(little, wire, 0))
    requires o == Read(little, At(little, wire, 0), wire[0..], [8], false)
    ensures o.code < 0
  {
    var got := StepAt(little, wire, payload, 0, [8], false, o);
    AtReads(little, wire, payload, 0);
    ReadStep(little, At(little, wire, 0), wire[0..], [8], false, 8, Got(8, 8, |wire[0..]|), o);
    if got == 8 {
      assert [8][1..] == [];
      var none := StepAt(little, wire, payload, 8, [], true, o);
      ToIntExact(|payload|);
    }
  }

  ghost predicate AlwaysCompletes(little: bool, payload: seq<byte>, rest: seq<byte>) {
    forall calls: seq<seq<int>> ::
      HEADER + |payload| <= |calls| && (forall i :: 0 <= i < |calls| ==> Lively(calls[i])) ==>
        ReadAll(little, FRESH, Encode(payload) + rest, calls).code == 0
  }

  /** Every run of enough lively calls completes a frame if and only if its payload is smaller than 2^31 bytes. */
  lemma CompletesExactly(little: bool, payload: seq<byte>, rest: seq<byte>)
    requires |payload| < WORD
    ensures AlwaysCompletes(little, payload, rest) <==> |payload| < 0x8000_0000
  {
    if |payload| < 0x8000_0000 {
      forall calls: seq<seq<int>> |
        HEADER + |payload| <= |calls| && (forall i :: 0 <= i < |calls| ==> Lively(calls[i]))
        ensures ReadAll(little, FRESH, Encode(payload) + rest, calls).code == 0
      {
        FrameComesOut(little, payload, rest, calls);
      }
    } else {
      var calls := seq(HEADER + |payload|, _ => [8]);
      HugeFails(little, payload, rest, calls);
    }
  }

  /** The whole way of any frame a peer may send: followed by anything and read in any pieces, it comes out with its
      payload and its size, the rest is unread, and it is accepted exactly when magic number and version are right. */
  lemma AnyFrameComesOut(little: bool, magic: nat, version: nat, payload: seq<byte>, rest: seq<byte>,
                         calls: seq<seq<int>>)
    requires magic < 65536 && version < 65536 && |payload| < WORD
    ensures var o := ReadAll(little, FRESH, Frame(magic, version, payload) + rest, calls);
            o.code == 0 ==>
              o.stream == rest && HEADER <= |o.reader.buffer| &&
              (Decoded(little, o.reader.buffer).1 <==> magic == MAGIC && version <= MAX_VERSION) &&
              Decoded(little, o.reader.buffer).0[HEADER..] == payload &&
              Size(little, Decoded(little, o.reader.buffer).0) == |payload|
    ensures |payload| < 0x8000_0000 && HEADER + |payload| <= |calls| &&
            (forall i :: 0 <= i < |calls| ==> Lively(calls[i])) ==>
            ReadAll(little, FRESH, Frame(magic, version, payload) + rest, calls).code == 0
  {
    var wire := Frame(magic, version, payload) + rest;
    FrameParts(magic, version, payload, rest);
    assert At(little, wire, 0) == FRESH && wire[0..] == wire;
    ChunksDoNotMatter(little, wire, payload, 0, calls);
    DecodesAt(little, wire, payload);
    if |payload| < 0x8000_0000 && HEADER + |payload| <= |calls| && forall i :: 0 <= i < |calls| ==> Lively(calls[i]) {
      LivelyCompletes(little, wire, payload, 0, calls);
    }
  }

  /** The whole way of a frame: encoded, followed by anything, read in any pieces, decoded. */
  lemma FrameComesOut(little: bool, payload: seq<byte>, rest: seq<byte>, calls: seq<seq<int>>)
    requires |payload| < WORD
    ensures var o := ReadAll(little, FRESH, Encode(payload) + rest, calls);
            o.code == 0 ==>
              o.stream == rest && HEADER <= |o.reader.buffer| && Decoded(little, o.reader.buffer).1 &&
              Decoded(little, o.reader.buffer).0[HEADER..] == payload &&
              Size(little, Decoded(little, o.reader.buffer).0) == |payload|
    ensures |payload| < 0x8000_0000 && HEADER + |payload| <= |calls| &&
            (forall i :: 0 <= i < |calls| ==> Lively(calls[i])) ==>
            ReadAll(little, FRESH, Encode(payload) + rest, calls).code == 0
  {
    AnyFrameComesOut(little, MAGIC, 0, payload, rest, calls);
  }
}

/** The reader as an object. */
module RapidObject {
  import opened Machine
  import opened Rapid

  class ProtocolReadRapid {
    const little: bool
    var buffer: seq<byte>
    var readHeader: bool

    function Now(): (r: Reader)
      reads this
    {
      Reader(buffer, readHeader)
    }

    constructor (little: bool)
      ensures Now() == FRESH && this.little == little
    {
      this.little := little;
      buffer, readHeader := [], true;
    }

    method Reset()
      modifies this
      ensures Now() == FRESH
    {
      buffer, readHeader := [], true;
    }

    /** Takes what the socket gives, until the frame is complete or nothing more has come in. */
    method Read(stream: seq<byte>, answers: seq<int>) returns (code: int, rest: seq<byte>)
      requires Reading(little, Now())
      modifies this
      ensures Reading(little, Now())
      ensures Outcome(Now(), rest, code) == Rapid.Read(little, old(Now()), stream, answers, false)
    {
      var any, left := false, answers;
      rest := stream;
      ghost var all := Rapid.Read(little, Now(), stream, answers, false);
      while true
        invariant Reading(little, Now()) && all == Rapid.Read(little, Now(), rest, left, any)
        decreases |left|
      {
        var wanted := Wanted(little, Now());
        code := Got(Answer(left), wanted, |rest|);
        ReadStep(little, Now(), rest, left, any, wanted, code, all);
        if code == 0 {
          code := if any then ToInt(wanted) else END;
          return;
        }
        if code < 0 { return; }
        any := true;
        buffer := buffer + rest[..code];
        rest := rest[code..];
        if !readHeader {
          code := ToInt(wanted - code);
          return;
        }
        if |buffer| == HEADER {
          readHeader := false;
          buffer := SizeConverted(little, buffer);
        }
        left := left[1..];
      }
    }

    /** Converts the rest of the header and checks it. */
    method Decode() returns (ok: bool)
      requires HEADER <= |buffer|
      modifies this`buffer
      ensures (buffer, ok) == Decoded(little, old(buffer)) && buffer[4..] == old(buffer)[4..]
      ensures ok <==> NetValue(old(buffer)[..2]) == MAGIC && NetValue(old(buffer)[2..4]) <= MAX_VERSION
    {
      DecodesExactly(little, buffer);
      buffer := Swap(little, buffer[..2]) + buffer[2..];
      assert buffer[2..4] == old(buffer)[2..4] && buffer[4..] == old(buffer)[4..];
      buffer := buffer[..2] + Swap(little, buffer[2..4]) + buffer[4..];
      ok := HostValue(little, buffer[..2]) == MAGIC && HostValue(little, buffer[2..4]) <= MAX_VERSION;
    }

    function Data(): (d: seq<byte>)
      requires HEADER <= |buffer|
      reads this
    {
      buffer[HEADER..]
    }
  }
}
