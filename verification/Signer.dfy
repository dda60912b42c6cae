/** The HSM-backed validator signer: height/round/step bookkeeping that must survive crashes so that
    no two different messages are ever signed for the same point of consensus. */
module Signer {
  import opened Basics

  datatype VoteType = Prevote | Precommit | Unknown

  /** A vote or a proposal; the fields outside the sign bytes are left out. */
  datatype Message =
    | Vote(kind: VoteType, height: int, round: int, blockID: Bytes, timestamp: int)
    | Proposal(height: int, round: int, polRound: int, blockID: Bytes, timestamp: int)

  datatype Canonical = Canonical(message: Message, chainID: string)

  /** Sign bytes are the encoded canonical message; decoding is tried as a vote or as a proposal. */
  datatype Codec = Codec(encode: Canonical -> Bytes, decodeVote: Bytes -> Option<Canonical>,
                         decodeProposal: Bytes -> Option<Canonical>, verify: (Bytes, Bytes) -> bool)

  /** Encoding is injective (the canonical message starts with its type) and decoding undoes it. */
  ghost predicate Faithful(codec: Codec) {
    && (forall c: Canonical, d: Canonical :: codec.encode(c) == codec.encode(d) ==> c == d)
    && (forall c: Canonical :: c.message.Vote? ==> codec.decodeVote(codec.encode(c)) == Some(c))
    && (forall c: Canonical :: c.message.Proposal? ==> codec.decodeProposal(codec.encode(c)) == Some(c))
  }

  function StepOf(m: Message): int {
    match m
    case Proposal(_, _, _, _, _) => 1
    case Vote(kind, _, _, _, _) => if kind == Prevote then 2 else 3
  }

  predicate Signable(m: Message) { m.Vote? ==> m.kind != Unknown }

  datatype Memory = Memory(height: int, round: int, step: int, signature: Option<Bytes>, signBytes: Option<Bytes>)

  const FRESH: Memory := Memory(0, 0, 0, None, None)

  /** Empty byte strings are omitted from the saved file and load as nil. */
  function Persisted(b: Option<Bytes>): Option<Bytes> { if b == Some([]) then None else b }

  /** What is read back after saving m. */
  function Saved(m: Memory): Memory { m.(signature := Persisted(m.signature), signBytes := Persisted(m.signBytes)) }

  /** Lexicographic order on (height, round, step). */
  predicate Before(h: int, r: int, s: int, h': int, r': int, s': int) {
    h < h' || (h == h' && (r < r' || (r == r' && s < s')))
  }

  datatype Check = Newer | SameHRS | Error | Panic

  function CheckHRS(m: Memory, height: int, round: int, step: int): (c: Check)
    ensures c == Newer <==> Before(m.height, m.round, m.step, height, round, step)
    ensures c == SameHRS ==> m.height == height && m.round == round && m.step == step
    ensures c == SameHRS ==> m.signBytes.Some? && m.signature.Some?
  {
    if m.height > height then Error
    else if m.height == height && m.round > round then Error
    else if m.height == height && m.round == round && m.step > step then Error
    else if m.height == height && m.round == round && m.step == step then
      if m.signBytes.None? then Error else if m.signature.None? then Panic else SameHRS
    else Newer
  }

  predicate OnlyTimeDiffers(a: Canonical, b: Canonical) {
    a.chainID == b.chainID && a.message.(timestamp := 0) == b.message.(timestamp := 0)
  }

  /** Decodes both sign bytes and compares them with equal timestamps. None is the decoder's panic; the
      inner value is the last timestamp when only the timestamps differ. */
  function TimestampOf(codec: Codec, msg: Message, last: Bytes, bytes: Bytes): Option<Option<int>> {
    var l := if msg.Vote? then codec.decodeVote(last) else codec.decodeProposal(last);
    var n := if msg.Vote? then codec.decodeVote(bytes) else codec.decodeProposal(bytes);
    if l.None? || n.None? then None
    else Some(if OnlyTimeDiffers(l.value, n.value) then Some(l.value.message.timestamp) else None)
  }

  /** What a signing request comes to: refused, a panic, the last signature once more (with the message's
      timestamp rewritten if needed), or a fresh signature that is recorded first. */
  datatype Attempt =
    | Refused
    | Panicked
    | Reused(message: Message, signature: Bytes)
    | Signed(memory: Memory, signature: Bytes)

  function Sign(codec: Codec, m: Memory, chainID: string, msg: Message, hsm: Option<Bytes>): Attempt {
    if !Signable(msg) then Panicked
    else
      var bytes := codec.encode(Canonical(msg, chainID));
      match CheckHRS(m, msg.height, msg.round, StepOf(msg))
      case Error => Refused
      case Panic => Panicked
      case SameHRS =>
        if bytes == m.signBytes.value then Reused(msg, m.signature.value)
        else
          var t := TimestampOf(codec, msg, m.signBytes.value, bytes);
          if t.None? then Panicked
          else if t.value.Some? then Reused(msg.(timestamp := t.value.value), m.signature.value)
          else Refused
      case Newer =>
        if hsm.None? then Refused
        else Signed(Memory(msg.height, msg.round, StepOf(msg), hsm, Some(bytes)), hsm.value)
  }

  /** The signer object with its file. */
  class YubiHsmPV {
    const codec: Codec
    var lastHeight: int
    var lastRound: int
    var lastStep: int
    var lastSignature: Option<Bytes>
    var lastSignBytes: Option<Bytes>
    var file: Memory

    /** Loads the signer from its file. */
    constructor Load(codec: Codec, file: Memory)
      ensures this.codec == codec && this.file == file && Value() == file
    {
      this.codec, this.file := codec, file;
      lastHeight, lastRound, lastStep := file.height, file.round, file.step;
      lastSignature, lastSignBytes := file.signature, file.signBytes;
    }

    function Value(): Memory
      reads this
    { Memory(lastHeight, lastRound, lastStep, lastSignature, lastSignBytes) }

    /** Records what is about to be released, in memory and in the file. */
    method SaveSigned(height: int, round: int, step: int, signBytes: Bytes, signature: Bytes)
      modifies this
      ensures Value() == Memory(height, round, step, Some(signature), Some(signBytes)) && file == Saved(Value())
    {
      lastHeight, lastRound, lastStep := height, round, step;
      lastSignature, lastSignBytes := Some(signature), Some(signBytes);
      file := Saved(Value());
    }

    /** Signs a vote or a proposal. The result is what the caller receives: the message as released and
        its signature, or nothing. */
    method SignMessage(chainID: string, msg: Message, hsm: Option<Bytes>)
        returns (released: Option<(Message, Bytes)>, panicked: bool)
      modifies this
      ensures var a := Sign(codec, old(Value()), chainID, msg, hsm);
        match a
        case Refused => Value() == old(Value()) && file == old(file) && released.None? && !panicked
        case Panicked => Value() == old(Value()) && file == old(file) && released.None? && panicked
        case Reused(m, s) => Value() == old(Value()) && file == old(file) && released == Some((m, s)) && !panicked
        case Signed(m, s) => Value() == m && file == Saved(m) && released == Some((msg, s)) && !panicked
    {
      released, panicked := None, false;
      if !Signable(msg) { return None, true; }
      var height, round, step := msg.height, msg.round, StepOf(msg);
      var signBytes := codec.encode(Canonical(msg, chainID));
      var check := CheckHRS(Value(), height, round, step);
      if check == Error { return; }
      if check == Panic { return None, true; }
      if check == SameHRS {
        if signBytes == lastSignBytes.value { return Some((msg, lastSignature.value)), false; }
        var t := TimestampOf(codec, msg, lastSignBytes.value, signBytes);
        if t.None? { return None, true; }
        if t.value.Some? { return Some((msg.(timestamp := t.value.value), lastSignature.value)), false; }
        return;
      }
      if hsm.None? { return; }
      SaveSigned(height, round, step, signBytes, hsm.value);
      released := Some((msg, hsm.value));
    }
  }

  // ---- the order of messages ----

  /** Within a round the proposal comes first, then the prevote, then the precommit: b comes after a. */
  predicate LaterKind(a: Message, b: Message) {
    || (a.Proposal? && b.Vote?)
    || (a.Vote? && a.kind == Prevote && b.Vote? && b.kind == Precommit)
  }

  predicate SameKind(a: Message, b: Message) {
    (a.Proposal? && b.Proposal?) || (a.Vote? && b.Vote? && a.kind == b.kind)
  }

  /** b comes after a in consensus: by height, then round, then kind. */
  predicate Later(a: Message, b: Message) {
    || b.height > a.height
    || (b.height == a.height && (b.round > a.round || (b.round == a.round && LaterKind(a, b))))
  }

  predicate SamePoint(a: Message, b: Message) { a.height == b.height && a.round == b.round && SameKind(a, b) }

  /** The numbered steps are in that order. */
  lemma StepsFollowKinds(a: Message, b: Message)
    requires Signable(a) && Signable(b)
    ensures Later(a, b) <==> Before(a.height, a.round, StepOf(a), b.height, b.round, StepOf(b))
    ensures SamePoint(a, b) <==> (a.height, a.round, StepOf(a)) == (b.height, b.round, StepOf(b))
  {
  }

  // ---- whole runs ----

  datatype CrashPoint = NoCrash | BeforeSave | AfterSave

  datatype Event =
    | Request(chainID: string, message: Message, hsm: Option<Bytes>, crash: CrashPoint)
    | Reload

  datatype Release = Release(chainID: string, message: Message, signature: Bytes)

  datatype World = World(memory: Memory, file: Memory, released: seq<Release>)

  const START: World := World(FRESH, FRESH, [])

  /** One event. A crash during a request can come before or after the file is written, but then nothing
      is released and the next process starts from the file. */
  function Apply(codec: Codec, w: World, e: Event): World {
    match e
    case Reload => w.(memory := w.file)
    case Request(chainID, msg, hsm, crash) =>
      match Sign(codec, w.memory, chainID, msg, hsm)
      case Signed(m, s) =>
        (match crash
         case BeforeSave => w.(memory := w.file)
         case AfterSave => w.(memory := Saved(m), file := Saved(m))
         case NoCrash => World(m, Saved(m), w.released + [Release(chainID, msg, s)]))
      case Reused(m, s) =>
        if crash == NoCrash then w.(released := w.released + [Release(chainID, m, s)]) else w.(memory := w.file)
      case Refused => w
      case Panicked => w
  }

  function RunFrom(codec: Codec, es: seq<Event>): World {
    if es == [] then START else Apply(codec, RunFrom(codec, es[..|es| - 1]), es[|es| - 1])
  }

  /** The HSM's signatures verify. */
  ghost predicate Honest(codec: Codec, es: seq<Event>) {
    forall i :: 0 <= i < |es| && es[i].Request? && es[i].hsm.Some? ==>
      codec.verify(codec.encode(Canonical(es[i].message, es[i].chainID)), es[i].hsm.value)
  }

  function SignBytes(codec: Codec, r: Release): Bytes { codec.encode(Canonical(r.message, r.chainID)) }

  ghost predicate AtMemory(r: Release, m: Memory) {
    r.message.height == m.height && r.message.round == m.round && StepOf(r.message) == m.step
  }

  /** The remembered sign bytes encode a message of the remembered height, round and step. */
  ghost predicate Remembered(codec: Codec, m: Memory) {
    m.signBytes.Some? ==> exists c: Canonical ::
      && codec.encode(c) == m.signBytes.value && Signable(c.message)
      && c.message.height == m.height && c.message.round == m.round && StepOf(c.message) == m.step
      && (m.signature.Some? ==> codec.verify(m.signBytes.value, m.signature.value))
  }

  /** A release is no later than the memory, and at the memory's own point it is what is remembered. */
  ghost predicate Covered(codec: Codec, m: Memory, r: Release) {
    && Signable(r.message) && codec.verify(SignBytes(codec, r), r.signature)
    && !Before(m.height, m.round, m.step, r.message.height, r.message.round, StepOf(r.message))
    && (AtMemory(r, m) ==> Raw(m.signBytes) == SignBytes(codec, r) && Raw(m.signature) == r.signature)
  }

  /** Two releases in order: the later is not earlier in consensus, and at the same point it is the same
      signature over the same bytes. */
  ghost predicate Ordered(codec: Codec, a: Release, b: Release) {
    && !Later(b.message, a.message)
    && (SamePoint(a.message, b.message) ==> SignBytes(codec, a) == SignBytes(codec, b) && a.signature == b.signature)
  }

  ghost predicate Inv(codec: Codec, w: World) {
    && w.file == Saved(w.memory)
    && Remembered(codec, w.memory)
    && (forall i :: 0 <= i < |w.released| ==> Covered(codec, w.memory, w.released[i]))
    && (forall i, j :: 0 <= i < j < |w.released| ==> Ordered(codec, w.released[i], w.released[j]))
  }

  lemma ReloadKeepsInv(codec: Codec, w: World)
    requires Inv(codec, w)
    ensures Inv(codec, w.(memory := w.file))
  {
    var v := w.(memory := w.file);
    if v.memory.signBytes.Some? { assert w.memory.signBytes == v.memory.signBytes; }
    forall i | 0 <= i < |v.released| ensures Covered(codec, v.memory, v.released[i]) {
      assert Covered(codec, w.memory, w.released[i]);
    }
  }

  /** A reused signature belongs to the message as released, timestamp rewritten. */
  lemma ReuseMatches(codec: Codec, m: Memory, chainID: string, msg: Message, hsm: Option<Bytes>)
    requires Faithful(codec) && Remembered(codec, m) && Sign(codec, m, chainID, msg, hsm).Reused?
    ensures var a := Sign(codec, m, chainID, msg, hsm);
      && m.signBytes == Some(codec.encode(Canonical(a.message, chainID))) && m.signature == Some(a.signature)
      && Signable(a.message) && AtMemory(Release(chainID, a.message, a.signature), m)
      && codec.verify(m.signBytes.value, a.signature)
  {
    var c: Canonical :| codec.encode(c) == m.signBytes.value && Signable(c.message)
      && c.message.height == m.height && c.message.round == m.round && StepOf(c.message) == m.step
      && (m.signature.Some? ==> codec.verify(m.signBytes.value, m.signature.value));
    var n := Canonical(msg, chainID);
    assert c.message.Vote? <==> msg.Vote?;
    var a := Sign(codec, m, chainID, msg, hsm);
    if codec.encode(n) != m.signBytes.value {
      assert OnlyTimeDiffers(c, n);
      assert a.message == msg.(timestamp := c.message.timestamp) == c.message;
    }
  }

  lemma ReleaseKeepsInv(codec: Codec, w: World, m: Memory, r: Release)
    requires Inv(codec, w) && m.signature == Some(r.signature) && m.signBytes == Some(SignBytes(codec, r))
    requires AtMemory(r, m) && Signable(r.message) && codec.verify(SignBytes(codec, r), r.signature)
    requires m == w.memory || Before(w.memory.height, w.memory.round, w.memory.step, m.height, m.round, m.step)
    ensures Inv(codec, World(m, Saved(m), w.released + [r]))
  {
    var v := World(m, Saved(m), w.released + [r]);
    assert Remembered(codec, m) by { assert codec.encode(Canonical(r.message, r.chainID)) == m.signBytes.value; }
    forall i | 0 <= i < |v.released|
      ensures Covered(codec, m, v.released[i]) && (i < |w.released| ==> Ordered(codec, v.released[i], r))
    {
      if i < |w.released| {
        assert Covered(codec, w.memory, w.released[i]);
        StepsFollowKinds(w.released[i].message, r.message);
        StepsFollowKinds(r.message, w.released[i].message);
      }
    }
  }

  lemma RecordKeepsInv(codec: Codec, w: World, m: Memory)
    requires Inv(codec, w) && Remembered(codec, m)
    requires Before(w.memory.height, w.memory.round, w.memory.step, m.height, m.round, m.step)
    ensures Inv(codec, w.(memory := m, file := Saved(m)))
  {
    forall i | 0 <= i < |w.released| ensures Covered(codec, m, w.released[i]) {
      assert Covered(codec, w.memory, w.released[i]);
    }
  }

  lemma ApplyKeepsInv(codec: Codec, w: World, e: Event)
    requires Faithful(codec) && Inv(codec, w) && Honest(codec, [e])
    ensures Inv(codec, Apply(codec, w, e))
  {
    assert e == [e][0];
    ReloadKeepsInv(codec, w);
    if e.Request? {
      var a := Sign(codec, w.memory, e.chainID, e.message, e.hsm);
      if a.Signed? {
        assert Remembered(codec, a.memory) by {
          assert codec.encode(Canonical(e.message, e.chainID)) == a.memory.signBytes.value;
        }
        RecordKeepsInv(codec, w, a.memory);
        ReloadKeepsInv(codec, w.(memory := a.memory, file := Saved(a.memory)));
        ReleaseKeepsInv(codec, w, a.memory, Release(e.chainID, e.message, a.signature));
      } else if a.Reused? {
        ReuseMatches(codec, w.memory, e.chainID, e.message, e.hsm);
        ReleaseKeepsInv(codec, w, w.memory, Release(e.chainID, a.message, a.signature));
      }
    }
  }

  lemma {:induction false} RunKeepsInv(codec: Codec, es: seq<Event>)
    requires Faithful(codec) && Honest(codec, es)
    ensures Inv(codec, RunFrom(codec, es))
    decreases |es|
  {
    if es != [] {
      var init := es[..|es| - 1];
      RunKeepsInv(codec, init);
      ApplyKeepsInv(codec, RunFrom(codec, init), es[|es| - 1]);
    }
  }

  /** Over every run of requests, HSM failures, crashes and reloads: releases never go back in height,
      round and kind, where a round has its proposal, prevote and precommit in this order; two releases at one
      point carry the same signature over the same bytes; and every signature verifies over the message as
      released, which is a proposal, a prevote or a precommit. */
  lemma NoDoubleSign(codec: Codec, es: seq<Event>)
    requires Faithful(codec) && Honest(codec, es)
    ensures var rs := RunFrom(codec, es).released;
      && (forall i :: 0 <= i < |rs| ==>
            Signable(rs[i].message) && codec.verify(SignBytes(codec, rs[i]), rs[i].signature))
      && (forall i, j :: 0 <= i < j < |rs| ==> Ordered(codec, rs[i], rs[j]))
  {
    RunKeepsInv(codec, es);
    var w := RunFrom(codec, es);
    forall i | 0 <= i < |w.released|
      ensures Signable(w.released[i].message)
      ensures codec.verify(SignBytes(codec, w.released[i]), w.released[i].signature)
    {
      assert Covered(codec, w.memory, w.released[i]);
    }
  }

  /** The messages that were signed and written to the file, released or lost in a crash right after. */
  function Recorded(codec: Codec, es: seq<Event>): seq<Message> {
    if es == [] then []
    else
      var init, e := es[..|es| - 1], es[|es| - 1];
      Recorded(codec, init) +
      if e.Request? && e.crash != BeforeSave
         && Sign(codec, RunFrom(codec, init).memory, e.chainID, e.message, e.hsm).Signed?
      then [e.message] else []
  }

  /** The memory is at the point of the last recorded message. */
  ghost predicate AtLast(m: Memory, ms: seq<Message>) {
    if ms == [] then (m.height, m.round, m.step) == (0, 0, 0)
    else
      var last := ms[|ms| - 1];
      Signable(last) && (m.height, m.round, m.step) == (last.height, last.round, StepOf(last))
  }

  lemma {:induction false} RecordedIsRemembered(codec: Codec, es: seq<Event>)
    ensures AtLast(RunFrom(codec, es).memory, Recorded(codec, es))
    ensures AtLast(RunFrom(codec, es).file, Recorded(codec, es))
    decreases |es|
  {
    if es != [] { RecordedIsRemembered(codec, es[..|es| - 1]); }
  }

  /** The message comes after everything recorded; the first one after height 0 before round 0. */
  predicate IsNewer(codec: Codec, es: seq<Event>, msg: Message) {
    var ms := Recorded(codec, es);
    if ms == [] then msg.height > 0 || (msg.height == 0 && msg.round >= 0) else Later(ms[|ms| - 1], msg)
  }

  /** After any run a request is signed anew if and only if the HSM works and the message comes after the
      last one recorded, by height, round and kind. */
  lemma SignedExactlyWhen(codec: Codec, es: seq<Event>, chainID: string, msg: Message, hsm: Option<Bytes>)
    requires Signable(msg)
    ensures Sign(codec, RunFrom(codec, es).memory, chainID, msg, hsm).Signed? <==>
              hsm.Some? && IsNewer(codec, es, msg)
  {
    RecordedIsRemembered(codec, es);
    var ms := Recorded(codec, es);
    if ms != [] { StepsFollowKinds(ms[|ms| - 1], msg); }
  }

  /** No process died between writing its file and releasing the signature. */
  ghost predicate NothingLost(es: seq<Event>) {
    forall i :: 0 <= i < |es| && es[i].Request? ==> es[i].crash != AfterSave
  }

  /** The newest release is at the point the signer remembers, in memory and in its file. */
  ghost predicate NewestAt(w: World) {
    w.released != [] ==>
      var newest := w.released[|w.released| - 1];
      AtMemory(newest, w.memory) && AtMemory(newest, w.file)
  }

  lemma ApplyKeepsNewest(codec: Codec, w: World, e: Event)
    requires Faithful(codec) && Remembered(codec, w.memory) && w.file == Saved(w.memory) && NewestAt(w)
    requires e.Request? ==> e.crash != AfterSave
    ensures NewestAt(Apply(codec, w, e))
  {
    if e.Request? && Sign(codec, w.memory, e.chainID, e.message, e.hsm).Reused? {
      ReuseMatches(codec, w.memory, e.chainID, e.message, e.hsm);
    }
  }

  lemma {:induction false} NewestIsRemembered(codec: Codec, es: seq<Event>)
    requires Faithful(codec) && Honest(codec, es) && NothingLost(es)
    ensures NewestAt(RunFrom(codec, es))
    decreases |es|
  {
    if es != [] {
      var init := es[..|es| - 1];
      NewestIsRemembered(codec, init);
      RunKeepsInv(codec, init);
      ApplyKeepsNewest(codec, RunFrom(codec, init), es[|es| - 1]);
    }
  }

  /** When nothing was lost in a crash, a working HSM signs anew in the round of the newest release if and
      only if the request's kind is later: a prevote or precommit after the proposal, a precommit after the
      prevote, nothing after the precommit. */
  lemma NewestReleaseDecides(codec: Codec, es: seq<Event>, chainID: string, msg: Message, hsm: Option<Bytes>)
    requires Faithful(codec) && Honest(codec, es) && NothingLost(es) && Signable(msg) && hsm.Some?
    requires RunFrom(codec, es).released != []
    ensures var w := RunFrom(codec, es);
      var newest := w.released[|w.released| - 1].message;
      msg.height == newest.height && msg.round == newest.round ==>
        (Sign(codec, w.memory, chainID, msg, hsm).Signed? <==>
           || (newest.Proposal? && msg.Vote?)
           || (newest.Vote? && newest.kind == Prevote && msg.Vote? && msg.kind == Precommit))
  {
    NewestIsRemembered(codec, es);
    NoDoubleSign(codec, es);
    var w := RunFrom(codec, es);
    var newest := w.released[|w.released| - 1].message;
    StepsFollowKinds(newest, msg);
  }

  /** A signature lost in a crash after the save is not made good: another precommit of the round is refused
      although only the prevote was released. */
  lemma LostSignatureBlocks(codec: Codec, chainID: string, a: Message, b: Message, c: Message,
                            s: Bytes, t: Bytes, hsm: Option<Bytes>)
    requires Faithful(codec) && a.Vote? && b.Vote? && c.Vote? && a.height > 0 && t != []
    requires a.kind == Prevote && b.kind == c.kind == Precommit && b.blockID != c.blockID
    requires a.height == b.height == c.height && a.round == b.round == c.round
    ensures var w := RunFrom(codec, [Request(chainID, a, Some(s), NoCrash), Request(chainID, b, Some(t), AfterSave)]);
      w.released == [Release(chainID, a, s)] && Sign(codec, w.memory, chainID, c, hsm) == Refused
  {
    var first, second := Request(chainID, a, Some(s), NoCrash), Request(chainID, b, Some(t), AfterSave);
    assert [first, second][..1] == [first] && [first][..0] == [];
    var w := Apply(codec, START, first);
    assert w.released == [Release(chainID, a, s)] && RunFrom(codec, [first]) == w;
    var v := Apply(codec, w, second);
    assert RunFrom(codec, [first, second]) == v;
    var x, y := codec.encode(Canonical(b, chainID)), codec.encode(Canonical(c, chainID));
    assert v.memory == Memory(b.height, b.round, 3, Some(t), Persisted(Some(x)));
    if x != [] {
      assert x != y;
      assert codec.decodeVote(x) == Some(Canonical(b, chainID)) && codec.decodeVote(y) == Some(Canonical(c, chainID));
      assert !OnlyTimeDiffers(Canonical(b, chainID), Canonical(c, chainID));
    }
  }

  /** After any run a well-typed request is signed anew if and only if the HSM works and it comes after the
      last recorded message, and answered again if and only if it repeats the remembered message up to its
      timestamp; and the decoder never panics. */
  lemma AnsweredExactlyWhen(codec: Codec, es: seq<Event>, chainID: string, msg: Message, hsm: Option<Bytes>)
    requires Faithful(codec) && Honest(codec, es) && Signable(msg)
    ensures var m := RunFrom(codec, es).memory;
      var a := Sign(codec, m, chainID, msg, hsm);
      && (a.Signed? <==> hsm.Some? && IsNewer(codec, es, msg))
      && (a.Reused? <==> m.signature.Some? && m.signBytes.Some?
                         && exists t :: m.signBytes.value == codec.encode(Canonical(msg.(timestamp := t), chainID)))
      && (a.Panicked? ==> m.signBytes.Some? && m.signature.None?)
  {
    RunKeepsInv(codec, es);
    SignedExactlyWhen(codec, es, chainID, msg, hsm);
    var m := RunFrom(codec, es).memory;
    var a := Sign(codec, m, chainID, msg, hsm);
    if m.signBytes.Some? {
      var c: Canonical :| codec.encode(c) == m.signBytes.value && Signable(c.message)
        && c.message.height == m.height && c.message.round == m.round && StepOf(c.message) == m.step
        && (m.signature.Some? ==> codec.verify(m.signBytes.value, m.signature.value));
      AnsweredAgainst(codec, m, c, chainID, msg, hsm);
    }
  }

  lemma AnsweredAgainst(codec: Codec, m: Memory, c: Canonical, chainID: string, msg: Message, hsm: Option<Bytes>)
    requires Faithful(codec) && Signable(msg) && Signable(c.message) && m.signBytes == Some(codec.encode(c))
    requires c.message.height == m.height && c.message.round == m.round && StepOf(c.message) == m.step
    ensures var a := Sign(codec, m, chainID, msg, hsm);
      && (a.Reused? <==> m.signature.Some?
                         && exists t :: codec.encode(c) == codec.encode(Canonical(msg.(timestamp := t), chainID)))
      && (a.Panicked? ==> m.signature.None?)
  {
    var a, n := Sign(codec, m, chainID, msg, hsm), Canonical(msg, chainID);
    if m.signature.Some? && exists t :: codec.encode(c) == codec.encode(Canonical(msg.(timestamp := t), chainID)) {
      var t :| codec.encode(c) == codec.encode(Canonical(msg.(timestamp := t), chainID));
      assert c == Canonical(msg.(timestamp := t), chainID);
      assert OnlyTimeDiffers(c, n);
    }
    if a.Reused? {
      assert c.message.Vote? <==> msg.Vote?;
      if codec.encode(n) == codec.encode(c) {
        assert msg.(timestamp := msg.timestamp) == msg;
      } else {
        assert OnlyTimeDiffers(c, n);
        assert msg.(timestamp := c.message.timestamp) == c.message;
      }
    }
  }
}
