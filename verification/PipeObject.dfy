/** The pipe as the object the threads share. Each public method is one atomic action of one thread: it changes the
    bytes and words of the object in place, takes the protocol from one state to the next, and keeps the protocol's
    invariant, so that what is proved of every run holds of the object. A thread's local variables are its entry in
    `st.senders`, which no other thread's action changes. */
module PipeObject {
  import opened Options
  import opened PipeBytes
  import opened PipeProtocol
  import opened PipeInvariant
  import opened PipeSteps
  import opened PipeTheorems

  class MPSCFixedPipe {
    const cfg: Config
    const pipe: array<Byte>
    var receiverPace: nat
    var senderPaceFrom: Pace
    var senderPaceTo: Pace
    ghost var st: State               // the state of the protocol

    ghost predicate Shaped() { cfg.Ok() && pipe.Length == cfg.size }

    /** The object is the shared memory of a protocol state that satisfies the invariant. */
    ghost predicate Valid()
      reads this, pipe
    {
      Shaped() && Inv(cfg, st) && View() == st.mem
    }

    ghost function View(): (mem: Shared)
      reads this, pipe
    {
      Shared(pipe[..], receiverPace, senderPaceFrom, senderPaceTo)
    }

    constructor (cfg: Config)
      requires cfg.Ok()
      ensures Valid() && fresh(pipe) && this.cfg == cfg && st == Initial(cfg)
    {
      this.cfg := cfg;
      pipe := new Byte[cfg.size];
      receiverPace := 0;
      senderPaceFrom := Pace(0, 0);
      senderPaceTo := Pace(0, 0);
      st := Initial(cfg);
      new;
      SetBlank(0, cfg.size);
      InitialInv(cfg);
    }

    /** Fails exactly when the largest message would not leave a byte free, or notification is asked for
        without a notifier. */
    static method Init(cfg: Config, threshold: nat, hasNotifier: bool) returns (p: MPSCFixedPipe?)
      requires 4 <= cfg.offset && cfg.maxContent < MASK_NOT_WRITING - 1
      ensures p == null <==> cfg.size <= cfg.maxContent + cfg.offset || (threshold != 0 && !hasNotifier)
      ensures p != null ==> fresh(p) && fresh(p.pipe) && p.Valid() && p.cfg == cfg && p.st == Initial(cfg)
    {
      if cfg.size <= cfg.maxContent + cfg.offset || (threshold != 0 && !hasNotifier) {
        return null;
      }
      p := new MPSCFixedPipe(cfg);
    }

    // -------------------------------------------------------------- the actions of a sender

    /** The protocol has taken this step. */
    ghost predicate Took(before: State, e: Event)
      reads this
    {
      Enabled(cfg, before, e) && InBounds(cfg, before, e) && st == Step(cfg, before, e)
    }

    /** The state of the protocol moves on. */
    ghost method Take(e: Event)
      requires Inv(cfg, st) && Enabled(cfg, st, e)
      modifies this`st
      ensures Took(old(st), e) && Inv(cfg, st)
    {
      StepInv(cfg, st, e);
      st := Step(cfg, st, e);
    }

    /** The first half of ReserveSpaceForSend_: content that is too large is refused, else `to` and the receiver are
        read. */
    method Look(s: SenderId, msg: Message) returns (ok: bool, to: Pace, receiver: nat)
      requires Valid() && s !in st.senders && |msg.header| == cfg.offset - 4
      modifies this`st
      ensures Valid() && (ok <==> |msg.content| <= cfg.maxContent)
      ensures ok ==> Took(old(st), PipeProtocol.Look(s, msg)) && st.senders[s] == Looked(msg, to, receiver)
      ensures !ok ==> st == old(st)
    {
      ok, to, receiver := |msg.content| <= cfg.maxContent, senderPaceTo, receiverPace;
      if ok { Take(PipeProtocol.Look(s, msg)); }
    }

    /** The second half: the claim computed from what was read, and the CAS on `to`. */
    method Claim(s: SenderId, msg: Message, to: Pace, receiver: nat) returns (r: Option<Place>)
      requires Valid() && PipeProtocol.At(st, s) == Some(Looked(msg, to, receiver))
      modifies this
      ensures Valid() && Took(old(st), Reserve(s))
      ensures PipeProtocol.At(st, s) == if r.Some? then Some(Reserved(msg, r.value.start, r.value.before)) else None
      ensures s in old(st).hist.seenLap &&
              (r.Some? <==> old(senderPaceTo) == to &&
                            Room(cfg, to, Pace(old(st).hist.seenLap[s], receiver), cfg.offset + |msg.content|))
    {
      SeenAt(cfg, st, s);
      if senderPaceTo == to { RoomFound(cfg, to, Pace(st.hist.seenLap[s], receiver), |msg.content|); }
      Take(Reserve(s));
      r := TryClaim(to, receiver, |msg.content|);
    }

    /** Header, size and content, into the bytes claimed for them. */
    method WriteMsg(s: SenderId, msg: Message, start: nat, before: Option<nat>)
      requires Valid() && PipeProtocol.At(st, s) == Some(Reserved(msg, start, before))
      modifies this, pipe
      ensures Valid() && Took(old(st), Write(s)) && st.senders[s] == Written(start, before)
    {
      MessageFits(cfg, st, s);
      Take(Write(s));
      PutParts(start, msg.header, Encode32(|msg.content|), msg.content);
    }

    /** SetReady_ and the first look at `from`: what the sender does next, if it is not done. */
    method MarkReady(s: SenderId, start: nat, before: Option<nat>) returns (next: Option<Point>)
      requires Valid() && PipeProtocol.At(st, s) == Some(Written(start, before))
      modifies this, pipe
      ensures Valid() && Took(old(st), PipeProtocol.MarkReady(s)) && next == PipeProtocol.At(st, s)
    {
      Take(PipeProtocol.MarkReady(s));
      SetReadyBit(start);
      if senderPaceFrom.ptr == start {
        next := Advance(senderPaceFrom);
      } else if start == 0 {
        next := Some(Spinning(before, senderPaceFrom.lap));
      } else {
        next := None;
      }
    }

    /** One turn of the spin loop: once `from` is at the rewind point, it is handed over to a new lap. */
    method RewindFrom(s: SenderId, before: Option<nat>, lap: nat) returns (next: Option<Point>)
      requires Valid() && PipeProtocol.At(st, s) == Some(Spinning(before, lap))
      modifies this
      ensures Valid() && next == PipeProtocol.At(st, s)
      ensures if before == Some(old(senderPaceFrom).ptr) then Took(old(st), Rewind(s)) else st == old(st)
    {
      if before != Some(senderPaceFrom.ptr) { return Some(Spinning(before, lap)); }
      Take(Rewind(s));
      senderPaceFrom := Pace(lap + 1, 0);
      next := Advance(senderPaceFrom);
    }

    /** The CAS that publishes a message; the sender is done when it loses. */
    method CasFrom(s: SenderId, seen: Pace, ptr: nat) returns (ok: bool)
      requires Valid() && PipeProtocol.At(st, s) == Some(Publishing(seen, ptr))
      modifies this
      ensures Valid() && Took(old(st), Cas(s)) && (ok <==> old(senderPaceFrom) == seen)
      ensures PipeProtocol.At(st, s) == if ok then Some(CatchingUp(Pace(seen.lap, ptr))) else None
    {
      Take(Cas(s));
      ok := senderPaceFrom == seen;
      if ok { senderPaceFrom := Pace(seen.lap, ptr); }
    }

    /** The test of the catch-up loop. */
    method CatchUp(s: SenderId, at: Pace) returns (next: Option<Point>)
      requires Valid() && PipeProtocol.At(st, s) == Some(CatchingUp(at))
      modifies this`st
      ensures Valid() && Took(old(st), Check(s)) && next == PipeProtocol.At(st, s)
    {
      Take(Check(s));
      var w := Word(at.ptr);
      if at.ptr != senderPaceTo.ptr && IsReady(w) { next := Advance(at); } else { next := None; }
    }

    // -------------------------------------------------------------- the actions of the receiver

    /** ReceiveMsg_: true exactly when a published message is left, and then the receiver stands at it. */
    method HasTodo() returns (todo: bool)
      requires Valid()
      modifies this
      ensures Valid() && Took(old(st), Receive)
      ensures todo == st.holding && (todo <==> Consumed(old(st)) < old(st).hist.published)
      ensures SameLog(st, old(st)) && Consumed(st) == Consumed(old(st))
    {
      ReceiveExact(cfg, st);
      Take(Receive);
      todo := Lookup();
    }

    /** The message the receiver holds a pointer to: the oldest one not consumed. */
    method Current() returns (msg: Message)
      requires Valid() && st.holding
      ensures msg == st.hist.log[Consumed(st)].msg
    {
      ConsumeIs(cfg, st);
      msg := MessageAt(receiverPace);
    }

    /** The message is done with: its bytes are blank again. */
    method MsgConsumed()
      requires Valid() && st.holding
      modifies this, pipe
      ensures Valid() && Took(old(st), Consume)
      ensures SameLog(st, old(st)) && Consumed(st) == Consumed(old(st)) + 1
    {
      ConsumeIs(cfg, st);
      Take(Consume);
      Release();
    }

    /** A round of a scheduler on its mailbox: it takes the oldest message, if a published one is left. */
    method ReceiveOne() returns (r: Option<Message>)
      requires Valid()
      modifies this, pipe
      ensures Valid() && SameLog(st, old(st)) && Consumed(old(st)) <= st.hist.published <= |st.hist.log|
      ensures if Consumed(old(st)) < st.hist.published
              then r == Some(st.hist.log[Consumed(old(st))].msg) && Consumed(st) == Consumed(old(st)) + 1
              else r == None && Consumed(st) == Consumed(old(st))
    {
      var todo := HasTodo();
      if !todo { return None; }
      var msg := Current();
      MsgConsumed();
      return Some(msg);
    }

    // -------------------------------------------------------------- bytes and words

    method SetBlank(from: nat, to: nat)
      requires from <= to <= pipe.Length
      modifies pipe
      ensures pipe[..] == Splice(old(pipe[..]), from, Blanks(to - from))
    {
      PutBytes(from, Blanks(to - from));
    }

    /** memcpy or memset into the pipe, byte by byte. */
    method PutBytes(at: nat, data: seq<Byte>)
      requires at + |data| <= pipe.Length
      modifies pipe
      ensures pipe[..] == Splice(old(pipe[..]), at, data)
    {
      var i := 0;
      while i < |data|
        invariant 0 <= i <= |data|
        invariant forall k :: 0 <= k < i ==> pipe[at + k] == data[k]
        invariant forall k :: 0 <= k < pipe.Length && !(at <= k < at + i) ==> pipe[k] == old(pipe[k])
      {
        pipe[at + i] := data[i];
        i := i + 1;
      }
    }

    method TryClaim(to: Pace, receiver: nat, sizeContent: nat) returns (r: Option<Place>)
      modifies this`senderPaceTo
      ensures r == if to == old(senderPaceTo) then Decide(cfg, to, receiver, sizeContent) else None
      ensures View() == old(View()).(to := if r.Some? then r.value.next else old(senderPaceTo))
    {
      var need := cfg.offset + sizeContent;
      var ok: bool;
      if to.ptr >= receiver {
        if to.ptr + need <= cfg.size {
          ok := CasTo(to, to.ptr + need, false);
          return if ok then Some(Place(to.ptr, Pace(to.lap, to.ptr + need), None)) else None;
        } else if need < receiver {
          ok := CasTo(to, need, true);
          return if ok then Some(Place(0, Pace(to.lap + 1, need), Some(to.ptr))) else None;
        }
      } else if to.ptr + need < receiver {
        ok := CasTo(to, to.ptr + need, false);
        return if ok then Some(Place(to.ptr, Pace(to.lap, to.ptr + need), None)) else None;
      }
      return None;
    }

    method CasTo(seen: Pace, ptr: nat, newVersion: bool) returns (ok: bool)
      modifies this`senderPaceTo
      ensures ok <==> old(senderPaceTo) == seen
      ensures senderPaceTo == if ok then Pace(if newVersion then seen.lap + 1 else seen.lap, ptr) else old(senderPaceTo)
    {
      ok := senderPaceTo == seen;
      if ok { senderPaceTo := Pace(if newVersion then seen.lap + 1 else seen.lap, ptr); }
    }

    method PutParts(at: nat, a: seq<Byte>, b: seq<Byte>, c: seq<Byte>)
      requires at + |a| + |b| + |c| <= pipe.Length
      modifies pipe
      ensures pipe[..] == Splice(old(pipe[..]), at, a + b + c)
    {
      PutBytes(at, a);
      PutBytes(at + |a|, b);
      PutBytes(at + |a| + |b|, c);
      SpliceThrice(old(pipe[..]), at, a, b, c);
    }

    method SetReadyBit(start: nat)
      requires Shaped() && start + cfg.offset <= cfg.size
      modifies pipe
      ensures pipe[..] == SetReady(cfg, old(pipe[..]), start)
    {
      var w := Word(start);
      var bytes := Encode32(w % MASK_NOT_WRITING + MASK_NOT_WRITING);
      PutBytes(start + cfg.offset - 4, bytes);
    }

    method Advance(at: Pace) returns (next: Option<Point>)
      requires Shaped()
      ensures next == TryPublish(cfg, View(), at)
    {
      var w := Word(at.ptr);
      next := if IsBlank(w) then None else Some(Publishing(at, at.ptr + MsgSize(cfg, w)));
    }

    method Word(p: nat) returns (w: nat)
      requires Shaped()
      ensures w == SizeWord(cfg, pipe[..], p)
    {
      if p + cfg.offset <= pipe.Length {
        w := Decode32(pipe[p + cfg.offset - 4..p + cfg.offset]);
        assert pipe[..][p + cfg.offset - 4..p + cfg.offset] == pipe[p + cfg.offset - 4..p + cfg.offset];
      } else {
        w := BLANK_WORD;
      }
    }

    method MessageAt(p: nat) returns (msg: Message)
      requires Shaped() && p + MsgSize(cfg, SizeWord(cfg, pipe[..], p)) <= |pipe[..]|
      ensures msg == Delivered(cfg, pipe[..], p)
    {
      var w := Word(p);
      var end := p + MsgSize(cfg, w);
      msg := Message(pipe[p..p + cfg.offset - 4], pipe[p + cfg.offset..end]);
      assert pipe[..][p..p + cfg.offset - 4] == pipe[p..p + cfg.offset - 4];
      assert pipe[..][p + cfg.offset..end] == pipe[p + cfg.offset..end];
    }

    method Release()
      requires Shaped() && receiverPace + MsgSize(cfg, SizeWord(cfg, pipe[..], receiverPace)) <= |pipe[..]|
      modifies this`receiverPace, pipe
      ensures var p := old(receiverPace); var n := MsgSize(cfg, SizeWord(cfg, old(pipe[..]), p));
              View() == old(View()).(buf := Splice(old(pipe[..]), p, Blanks(n)), receiver := p + n)
    {
      var start := receiverPace;
      var w := Word(start);
      receiverPace := receiverPace + MsgSize(cfg, w);
      SetBlank(start, receiverPace);
    }

    method Lookup() returns (todo: bool)
      requires Shaped()
      modifies this`receiverPace
      ensures (todo, receiverPace) == PipeProtocol.HasTodo(cfg, old(View()))
      ensures View() == old(View()).(receiver := receiverPace)
    {
      if receiverPace < senderPaceFrom.ptr {
        return true;
      } else if senderPaceFrom.ptr == receiverPace {
        return false;
      }
      var w := Word(receiverPace);
      if IsBlank(w) {
        receiverPace := 0;
        return senderPaceFrom.ptr != receiverPace;
      }
      return true;
    }
  }

  /** Nothing is reserved, filled or published between the two. */
  predicate SameLog(a: State, b: State) { a.hist.log == b.hist.log && a.hist.published == b.hist.published }

  /** A reservation has room for the message it was made for. */
  lemma MessageFits(cfg: Config, st: State, s: SenderId)
    requires Inv(cfg, st) && s in st.senders && st.senders[s].Reserved?
    ensures var p := st.senders[s];
            Legal(cfg, p.msg) && p.start + |p.msg.header| + 4 + |p.msg.content| <= cfg.size
  {
    assert SenderOk(cfg, st, s);
    assert Link(cfg, st.hist.log, st.hist.own[s]);
  }

  lemma SpliceThrice(buf: seq<Byte>, at: nat, a: seq<Byte>, b: seq<Byte>, c: seq<Byte>)
    requires at + |a| + |b| + |c| <= |buf|
    ensures Splice(Splice(Splice(buf, at, a), at + |a|, b), at + |a| + |b|, c) == Splice(buf, at, a + b + c)
  {
  }
}
