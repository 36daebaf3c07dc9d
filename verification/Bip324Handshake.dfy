/**
 The BIP 324 handshake as two processes over two FIFO channels
 (section "Handshake: key exchange and version negotiation" of BIP 324).
 A step is one blocking read with the computation and the writes that follow it.
 */
module Bip324Handshake {
  import opened Wrappers
  import opened Bytes
  import opened Bip324Primitives
  import opened FsChaCha20
  import opened FsChaCha20Poly1305
  import opened Packets
  import opened SessionKeys
  import opened SkipGarbage
  import opened Ark1

  // ----- The part of the handshake that both sides share --------------------

  datatype Tail =
    | SkipFirst(k: Keys)                                  // read the first 16 bytes of garbage
    | Skip(k: Keys, garbage: bytes)                       // look for the terminator, one byte at a time
    | VersionLength(k: Keys, garbage: bytes)
    | VersionBody(k: Keys, garbage: bytes, aeadLen: nat)
    | Established(k: Keys)                                // the version packet was authenticated

  datatype TailStep = Blocked | Broken | Next(t: Tail, rest: bytes) | Found(k: Keys, garbage: bytes)

  ghost predicate TailValid(t: Tail) {
    && (t.Skip? ==> |t.garbage| >= TERMINATOR_LEN)
    && (t.VersionBody? ==> t.aeadLen >= HEADER_LEN + TAG_LEN)
  }

  function StepTail(p: Primitives, t: Tail, inbox: bytes): (step: TailStep)
    requires TailValid(t)
    ensures step.Next? ==> TailValid(step.t)
  {
    match t
    case SkipFirst(k) =>
      if |inbox| < TERMINATOR_LEN then Blocked
      else Next(Skip(k, inbox[..TERMINATOR_LEN]), inbox[TERMINATOR_LEN..])
    case Skip(k, garbage) =>
      var at := |garbage| - TERMINATOR_LEN;
      if at >= MAX_GARBAGE_LEN then Broken
      else if garbage[at..] == k.recvTerminator then Found(k, garbage[..at])
      else if inbox == [] then Blocked
      else Next(Skip(k, garbage + inbox[..1]), inbox[1..])
    case VersionLength(k, garbage) =>
      if |inbox| < LENGTH_FIELD_LEN then Blocked
      else
        var (l, aeadLen) := LengthReceived(p, k.recv.l, inbox[..LENGTH_FIELD_LEN]);
        Next(VersionBody(k.(recv := k.recv.(l := l)), garbage, aeadLen), inbox[LENGTH_FIELD_LEN..])
    case VersionBody(k, garbage, aeadLen) =>
      if |inbox| < aeadLen then Blocked
      else
        var (a, r) := ContentsReceived(p, k.recv.a, inbox[..aeadLen], garbage);
        if r.BadTag? then Broken else Next(Established(k.(recv := k.recv.(a := a))), inbox[aeadLen..])
    case Established(_) => Blocked
  }

  /** The search for the terminator alone, on the bytes that have arrived: how it ends, and the bytes it leaves. */
  function Search(p: Primitives, t: Tail, inbox: bytes): (TailStep, bytes)
    requires TailValid(t) && (t.SkipFirst? || t.Skip?)
    decreases if t.SkipFirst? then 1 else 0, |inbox|
  {
    var step := StepTail(p, t, inbox);
    if step.Next? then Search(p, step.t, step.rest) else (step, inbox)
  }

  /** What `SkipGarbage` promises about a stream that holds `input`, said of a search that ends so. */
  ghost predicate SkipsAs(k: Keys, input: bytes, step: TailStep, rest: bytes) {
    && (step.Found? <==> exists i: nat :: i < MAX_GARBAGE_LEN && TerminatorAt(input, k.recvTerminator, i))
    && (step.Found? ==>
          && step.k == k && FirstTerminatorAt(input, k.recvTerminator, |step.garbage|)
          && step.garbage == input[..|step.garbage|]
          && rest == input[|step.garbage| + TERMINATOR_LEN..])
    && (step.Blocked? <==> !step.Found? && |input| < TERMINATOR_LEN + MAX_GARBAGE_LEN)
    && (step.Broken? <==> !step.Found? && |input| >= TERMINATOR_LEN + MAX_GARBAGE_LEN)
  }

  /** One look at the window, on the bytes that have arrived. */
  lemma SearchStep(p: Primitives, k: Keys, input: bytes, n: nat)
    requires |k.recvTerminator| == TERMINATOR_LEN && TERMINATOR_LEN <= n <= |input|
    ensures var at, r := n - TERMINATOR_LEN, Search(p, Skip(k, input[..n]), input[n..]);
            if at >= MAX_GARBAGE_LEN then r == (Broken, input[n..])
            else if TerminatorAt(input, k.recvTerminator, at) then r == (Found(k, input[..at]), input[n..])
            else if n == |input| then r == (Blocked, input[n..])
            else r == Search(p, Skip(k, input[..n + 1]), input[n + 1..])
  {
    var at := n - TERMINATOR_LEN;
    assert input[..n][at..] == input[at..n] && input[..n][..at] == input[..at];
    if n < |input| {
      assert input[..n] + input[n..][..1] == input[..n + 1] && input[n..][1..] == input[n + 1..];
    }
  }

  lemma {:induction false} SearchFrom(p: Primitives, k: Keys, input: bytes, n: nat)
    requires |k.recvTerminator| == TERMINATOR_LEN
    requires TERMINATOR_LEN <= n <= |input| && n - TERMINATOR_LEN <= MAX_GARBAGE_LEN
    requires forall j: nat :: j < n - TERMINATOR_LEN ==> !TerminatorAt(input, k.recvTerminator, j)
    ensures var (step, rest) := Search(p, Skip(k, input[..n]), input[n..]);
            SkipsAs(k, input, step, rest)
    decreases |input| - n
  {
    hide Search, TerminatorAt;
    SearchStep(p, k, input, n);
    var at := n - TERMINATOR_LEN;
    if at >= MAX_GARBAGE_LEN || TerminatorAt(input, k.recvTerminator, at) {
    } else if n == |input| {
      TooShort(input, k.recvTerminator, at + 1);
    } else {
      SearchFrom(p, k, input, n + 1);
    }
  }

  /** The processes of this handshake skip garbage as `SkipGarbage` does: same success, same bytes, same rest. */
  lemma SearchAgrees(p: Primitives, k: Keys, input: bytes)
    requires |k.recvTerminator| == TERMINATOR_LEN
    ensures var (step, rest) := Search(p, SkipFirst(k), input);
            SkipsAs(k, input, step, rest)
  {
    if |input| < TERMINATOR_LEN {
      TooShort(input, k.recvTerminator, 0);
    } else {
      SearchFrom(p, k, input, TERMINATOR_LEN);
    }
  }

  // ----- What one side sends in a complete handshake ------------------------

  /** The terminator does not occur in the garbage followed by the terminator, except at its end. */
  ghost predicate NoEarlyTerminator(garbage: bytes, terminator: bytes) {
    forall j: nat :: j < |garbage| ==> !TerminatorAt(garbage + terminator, terminator, j)
  }

  /** The bytes one side sends, in order, and its send ciphers before and after the version packet. */
  datatype Plan = Plan(key: bytes, garbage: bytes, terminator: bytes, version: bytes, app: bytes,
                       before: Ciphers, after: Ciphers)
  {
    function GarbageEnd(): nat { |key| + |garbage| }
    function TerminatorEnd(): nat { GarbageEnd() + |terminator| }
    function VersionEnd(): nat { TerminatorEnd() + |version| }
    function End(): nat { VersionEnd() + |app| }

    function All(): (r: bytes)
      ensures |r| == End()
    {
      key + garbage + terminator + version + app
    }

    ghost predicate Valid(p: Primitives) {
      && |key| == ELLSWIFT_LEN && |terminator| == TERMINATOR_LEN
      && |garbage| < MAX_GARBAGE_LEN
      && Encoded(p, before, [], garbage, false) == (after, version)
      && NoEarlyTerminator(garbage, terminator)
    }

    lemma AppParts(n: nat)
      requires n <= |app|
      ensures All()[VersionEnd()..VersionEnd() + n] == app[..n]
      ensures All()[VersionEnd() + n..End()] == app[n..]
    {
    }

    lemma Parts()
      ensures All()[..|key|] == key
      ensures All()[|key|..GarbageEnd()] == garbage
      ensures All()[|key|..TerminatorEnd()] == garbage + terminator
      ensures All()[GarbageEnd()..TerminatorEnd()] == terminator
      ensures All()[TerminatorEnd()..VersionEnd()] == version
      ensures All()[VersionEnd()..] == app
    {
    }
  }

  /** `t` is where a reader of `q`'s bytes stands after taking `ReadOf(q, t)` of them. */
  ghost predicate TailOk(p: Primitives, q: Plan, t: Tail) {
    && TailValid(t)
    && t.k.recvTerminator == q.terminator
    && match t
       case SkipFirst(k) => k.recv == q.before
       case Skip(k, garbage) =>
         && k.recv == q.before
         && garbage <= q.garbage + q.terminator
       case VersionLength(k, garbage) => k.recv == q.before && garbage == q.garbage
       case VersionBody(k, garbage, aeadLen) =>
         k.recv == Ciphers(q.after.l, q.before.a) && garbage == q.garbage && aeadLen == |q.version| - LENGTH_FIELD_LEN
       case Established(k) => k.recv == q.after
  }

  function ReadOf(q: Plan, t: Tail): nat {
    match t
    case SkipFirst(_) => |q.key|
    case Skip(_, garbage) => |q.key| + |garbage|
    case VersionLength(_, _) => q.TerminatorEnd()
    case VersionBody(_, _, _) => q.TerminatorEnd() + LENGTH_FIELD_LEN
    case Established(_) => q.VersionEnd()
  }

  /** How far `q` must have got for a reader in `t` to go on. */
  function Needs(q: Plan, t: Tail): nat {
    if t.SkipFirst? || t.Skip? then q.TerminatorEnd() else q.VersionEnd()
  }

  lemma SliceRead(all: bytes, a: nat, b: nat, n: nat)
    requires a + n <= b <= |all|
    ensures all[a..b][..n] == all[a..a + n] && all[a..b][n..] == all[a + n..b]
  {
  }

  lemma VersionLengths(p: Primitives, q: Plan)
    requires q.Valid(p)
    ensures |q.version| == LENGTH_FIELD_LEN + HEADER_LEN + TAG_LEN
    ensures LengthReceived(p, q.before.l, q.version[..LENGTH_FIELD_LEN]) == (q.after.l, |q.version| - LENGTH_FIELD_LEN)
    ensures ContentsReceived(p, q.before.a, q.version[LENGTH_FIELD_LEN..], q.garbage) == (q.after.a, Contents([]))
  {
    PacketRoundTrip(p, q.before, [], q.garbage, false);
  }

  function Rank(t: Tail): nat {
    match t
    case SkipFirst(_) => 5
    case Skip(_, _) => 4
    case VersionLength(_, _) => 3
    case VersionBody(_, _, _) => 2
    case Established(_) => 1
  }

  /** A reader on the right track never breaks; it finds exactly the garbage that was sent; and it is blocked
      only while the sender has not got far enough. */
  ghost predicate GoodStep(p: Primitives, q: Plan, t: Tail, sent: nat, step: TailStep)
    requires sent <= q.End()
  {
    match step
    case Blocked => t.Established? || sent < Needs(q, t)
    case Broken => false
    case Next(u, rest) =>
      && TailOk(p, q, u) && ReadOf(q, t) < ReadOf(q, u) <= sent && rest == q.All()[ReadOf(q, u)..sent]
      && u.k == t.k.(recv := u.k.recv) && Rank(u) <= Rank(t)
      && (u.SkipFirst? || u.Skip? <==> t.SkipFirst? || t.Skip?)
    case Found(k, garbage) =>
      t.Skip? && k == t.k && garbage == q.garbage && ReadOf(q, t) == q.TerminatorEnd()
  }

  lemma SkipFirstProgress(p: Primitives, q: Plan, t: Tail, sent: nat)
    requires q.Valid(p) && TailOk(p, q, t) && ReadOf(q, t) <= sent <= q.End() && t.SkipFirst?
    ensures GoodStep(p, q, t, sent, StepTail(p, t, q.All()[ReadOf(q, t)..sent]))
  {
    var read := ReadOf(q, t);
    if sent - read >= TERMINATOR_LEN {
      SliceRead(q.All(), read, sent, TERMINATOR_LEN);
      q.Parts();
      assert q.All()[read..read + TERMINATOR_LEN] == q.All()[read..q.TerminatorEnd()][..TERMINATOR_LEN];
    }
  }

  lemma NextGarbageByte(q: Plan, have: nat)
    requires have < |q.garbage| + |q.terminator|
    ensures q.All()[|q.key| + have..|q.key| + have + 1] == (q.garbage + q.terminator)[have..have + 1]
  {
  }

  lemma NotYet(q: Plan, garbage: bytes)
    requires NoEarlyTerminator(q.garbage, q.terminator) && garbage <= q.garbage + q.terminator
    requires TERMINATOR_LEN <= |garbage| < TERMINATOR_LEN + |q.garbage|
    ensures garbage[|garbage| - TERMINATOR_LEN..] != q.terminator
  {
    var have, full := |garbage|, q.garbage + q.terminator;
    assert !TerminatorAt(full, q.terminator, have - TERMINATOR_LEN);
    assert garbage[have - TERMINATOR_LEN..] == full[have - TERMINATOR_LEN..have];
  }

  lemma PrefixMore(full: bytes, part: bytes)
    requires part <= full && |part| < |full|
    ensures part + full[|part|..|part| + 1] <= full
  {
    assert part + full[|part|..|part| + 1] == full[..|part| + 1];
  }

  lemma SkipOneMore(p: Primitives, q: Plan, t: Tail, sent: nat)
    requires q.Valid(p) && TailOk(p, q, t) && ReadOf(q, t) <= sent <= q.End() && t.Skip?
    requires |t.garbage| - TERMINATOR_LEN < |q.garbage|
    ensures GoodStep(p, q, t, sent, StepTail(p, t, q.All()[ReadOf(q, t)..sent]))
  {
    hide Encoded, LengthReceived, ContentsReceived, Plan.All, NoEarlyTerminator;
    var read := ReadOf(q, t);
    NotYet(q, t.garbage);
    if sent > read {
      SliceRead(q.All(), read, sent, 1);
      NextGarbageByte(q, |t.garbage|);
      PrefixMore(q.garbage + q.terminator, t.garbage);
    }
  }

  lemma SkipProgress(p: Primitives, q: Plan, t: Tail, sent: nat)
    requires q.Valid(p) && TailOk(p, q, t) && ReadOf(q, t) <= sent <= q.End() && t.Skip?
    ensures GoodStep(p, q, t, sent, StepTail(p, t, q.All()[ReadOf(q, t)..sent]))
  {
    if |t.garbage| - TERMINATOR_LEN < |q.garbage| {
      SkipOneMore(p, q, t, sent);
    } else {
      var full := q.garbage + q.terminator;
      assert t.garbage == full[..|t.garbage|] == full;
      assert full[|q.garbage|..] == q.terminator && full[..|q.garbage|] == q.garbage;
    }
  }

  lemma VersionLengthProgress(p: Primitives, q: Plan, t: Tail, sent: nat)
    requires q.Valid(p) && TailOk(p, q, t) && ReadOf(q, t) <= sent <= q.End() && t.VersionLength?
    ensures GoodStep(p, q, t, sent, StepTail(p, t, q.All()[ReadOf(q, t)..sent]))
  {
    hide LengthReceived, Encoded;
    VersionLengths(p, q);
    var read := ReadOf(q, t);
    if sent - read >= LENGTH_FIELD_LEN {
      SliceRead(q.All(), read, sent, LENGTH_FIELD_LEN);
      q.Parts();
      assert q.All()[read..read + LENGTH_FIELD_LEN] == q.All()[read..q.VersionEnd()][..LENGTH_FIELD_LEN];
    }
  }

  lemma VersionBodyProgress(p: Primitives, q: Plan, t: Tail, sent: nat)
    requires q.Valid(p) && TailOk(p, q, t) && ReadOf(q, t) <= sent <= q.End() && t.VersionBody?
    ensures GoodStep(p, q, t, sent, StepTail(p, t, q.All()[ReadOf(q, t)..sent]))
  {
    hide ContentsReceived, Encoded;
    VersionLengths(p, q);
    var read := ReadOf(q, t);
    if sent - read >= t.aeadLen {
      SliceRead(q.All(), read, sent, t.aeadLen);
      q.Parts();
      assert q.All()[read..read + t.aeadLen] == q.All()[q.TerminatorEnd()..q.VersionEnd()][LENGTH_FIELD_LEN..];
    }
  }

  lemma TailProgress(p: Primitives, q: Plan, t: Tail, sent: nat)
    requires q.Valid(p) && TailOk(p, q, t) && ReadOf(q, t) <= sent <= q.End()
    ensures GoodStep(p, q, t, sent, StepTail(p, t, q.All()[ReadOf(q, t)..sent]))
  {
    match t
    case SkipFirst(_) => SkipFirstProgress(p, q, t, sent);
    case Skip(_, _) => SkipProgress(p, q, t, sent);
    case VersionLength(_, _) => VersionLengthProgress(p, q, t, sent);
    case VersionBody(_, _, _) => VersionBodyProgress(p, q, t, sent);
    case Established(_) =>
  }

  // ----- The two processes --------------------------------------------------

  /** Both sides' random choices, and the first application packet the initiator's user writes. */
  datatype Setup = Setup(p: Primitives, privI: bytes, auxI: bytes, garbageI: bytes,
                         privR: bytes, auxR: bytes, garbageR: bytes, first: bytes)
  {
    function KeyI(): (r: bytes)
      ensures |r| == ELLSWIFT_LEN
    {
      p.publicKey(privI, auxI)
    }

    function KeyR(): (r: bytes)
      ensures |r| == ELLSWIFT_LEN
    {
      p.publicKey(privR, auxR)
    }
  }

  /** `Finished` has written the first application packet. */
  datatype Initiator =
    | Start
    | ReadKey
    | InTail(t: Tail)
    | Finished(k: Keys)
    | InitiatorBroken

  datatype Responder =
    | ReadPrefix
    | ReadRest(prefix: bytes)
    | RespTail(t: Tail)
    | AppBody(k: Keys, aeadLen: nat)
    | ArkClient(k: Keys, uuid: bytes, extra: bytes)
    | RealPeer(peeked: bytes)
    | ResponderBroken

  /** `toR` and `toI` hold the bytes under way. */
  datatype Net = Net(i: Initiator, r: Responder, toR: bytes, toI: bytes)

  const INITIAL: Net := Net(Start, ReadPrefix, [], [])

  /** Buffer lengths that the phases guarantee. */
  ghost predicate WellFormed(n: Net) {
    && (n.i.InTail? ==> TailValid(n.i.t))
    && (n.r.RespTail? ==> TailValid(n.r.t))
    && (n.r.AppBody? ==> n.r.aeadLen >= HEADER_LEN + TAG_LEN)
    && (n.r.ReadRest? ==> |n.r.prefix| == 16)
  }

  /** One step of `do_initiator_handshake` and of the caller's first write; `None` if it cannot move. */
  function StepInitiator(s: Setup, n: Net): (m: Option<Net>)
    requires WellFormed(n) && |s.first| < CONTENTS_LIMIT
    ensures m.Some? ==> WellFormed(m.value)
  {
    match n.i
    case Start => Some(n.(i := ReadKey, toR := n.toR + s.KeyI() + s.garbageI))
    case ReadKey =>
      if |n.toI| < ELLSWIFT_LEN then None
      else
        var k := DeriveSessionKeys(s.p, s.p.ecdh(s.privI, n.toI[..ELLSWIFT_LEN], s.KeyI(), true), true);
        Some(n.(i := InTail(SkipFirst(k)), toI := n.toI[ELLSWIFT_LEN..], toR := n.toR + k.sendTerminator))
    case InTail(t) =>
      if t.Established? then
        var (send, packet) := Encoded(s.p, t.k.send, s.first, [], false);
        Some(n.(i := Finished(t.k.(send := send)), toR := n.toR + packet))
      else
        (match StepTail(s.p, t, n.toI)
         case Blocked => None
         case Broken => Some(n.(i := InitiatorBroken))
         case Next(u, rest) => Some(n.(i := InTail(u), toI := rest))
         case Found(k, garbage) =>
           var (send, version) := Encoded(s.p, k.send, [], s.garbageI, false);
           Some(n.(i := InTail(VersionLength(k.(send := send), garbage)), toR := n.toR + version)))
    case _ => None
  }

  /** One step of `do_responder_handshake`; `None` if it cannot move. */
  function StepResponder(s: Setup, n: Net): (m: Option<Net>)
    requires WellFormed(n)
    ensures m.Some? ==> WellFormed(m.value)
  {
    match n.r
    case ReadPrefix =>
      if |n.toR| < 16 then None
      else if n.toR[..16] == V1_PREFIX then Some(n.(r := RealPeer(n.toR[..16]), toR := n.toR[16..]))
      else Some(n.(r := ReadRest(n.toR[..16]), toR := n.toR[16..]))
    case ReadRest(prefix) =>
      if |n.toR| < 48 then None
      else
        var theirs := prefix + n.toR[..48];
        var k := DeriveSessionKeys(s.p, s.p.ecdh(s.privR, theirs, s.KeyR(), false), false);
        Some(n.(r := RespTail(SkipFirst(k)), toR := n.toR[48..], toI := n.toI + s.KeyR() + s.garbageR))
    case RespTail(t) =>
      if t.Established? then
        if |n.toR| < LENGTH_FIELD_LEN then None
        else
          var (l, aeadLen) := LengthReceived(s.p, t.k.recv.l, n.toR[..LENGTH_FIELD_LEN]);
          Some(n.(r := AppBody(t.k.(recv := t.k.recv.(l := l)), aeadLen), toR := n.toR[LENGTH_FIELD_LEN..]))
      else
        (match StepTail(s.p, t, n.toR)
         case Blocked => None
         case Broken => Some(n.(r := ResponderBroken))
         case Next(u, rest) => Some(n.(r := RespTail(u), toR := rest))
         case Found(k, garbage) =>
           var (send, version) := Encoded(s.p, k.send, [], s.garbageR, false);
           Some(n.(r := RespTail(VersionLength(k.(send := send), garbage)), toI := n.toI + k.sendTerminator + version)))
    case AppBody(k, aeadLen) =>
      if |n.toR| < aeadLen then None
      else
        var (a, received) := ContentsReceived(s.p, k.recv.a, n.toR[..aeadLen], []);
        var after, rest := k.(recv := k.recv.(a := a)), n.toR[aeadLen..];
        (match received
         case BadTag => Some(n.(r := ResponderBroken))
         case Decoy => Some(n.(r := RespTail(Established(after)), toR := rest))
         case Contents(m) =>
           var uuid := ParseArk1(m);
           if uuid.Some? then Some(n.(r := ArkClient(after, uuid.value, m[MARKER_LEN..]), toR := rest))
           else Some(n.(r := ResponderBroken)))
    case _ => None
  }

  // ----- What an honest handshake amounts to --------------------------------

  function KeysI(s: Setup): Keys {
    DeriveSessionKeys(s.p, s.p.ecdh(s.privI, s.KeyR(), s.KeyI(), true), true)
  }

  function KeysR(s: Setup): Keys {
    DeriveSessionKeys(s.p, s.p.ecdh(s.privR, s.KeyI(), s.KeyR(), false), false)
  }

  function PlanI(s: Setup): Plan
    requires |s.first| < CONTENTS_LIMIT
  {
    var k := KeysI(s);
    var (after, version) := Encoded(s.p, k.send, [], s.garbageI, false);
    Plan(s.KeyI(), s.garbageI, k.sendTerminator, version, Encoded(s.p, after, s.first, [], false).1, k.send, after)
  }

  function PlanR(s: Setup): Plan {
    var k := KeysR(s);
    var (after, version) := Encoded(s.p, k.send, [], s.garbageR, false);
    Plan(s.KeyR(), s.garbageR, k.sendTerminator, version, [], k.send, after)
  }

  /** The first two packets of a direction. */
  lemma SentOf(p: Primitives, keyL: bytes, keyP: bytes, garbage: bytes, first: bytes)
    requires |first| < CONTENTS_LIMIT
    ensures var (after, version) := Encoded(p, CiphersOf(keyL, keyP), [], garbage, false);
            && after == CiphersAt(p, keyL, keyP, 1)
            && version == PacketBytes(p, keyL, keyP, 0, [], garbage, false)
            && Encoded(p, after, first, [], false).1 == PacketBytes(p, keyL, keyP, 1, first, [], false)
  {
    hide Encoded, PacketBytes, CiphersAt;
    CiphersStart(p, keyL, keyP);
    EncodesAsBip324(p, keyL, keyP, 0, [], garbage, false);
    EncodesAsBip324(p, keyL, keyP, 1, first, [], false);
  }

  /** A version packet does not open under other garbage than the one sent, where the AEAD tells the two apart. */
  lemma OtherGarbageRefused(p: Primitives, q: Plan, other: bytes)
    requires q.Valid(p) && TellsApart(p, q.garbage, other)
    ensures |q.version| >= LENGTH_FIELD_LEN + HEADER_LEN + TAG_LEN
    ensures ContentsReceived(p, q.before.a, q.version[LENGTH_FIELD_LEN..], other).1 == BadTag
  {
    hide Sealed, Opened, Crypted;
    VersionLengths(p, q);
    OtherAadRefused(p, q.before.a, q.garbage, other, [0]);
    assert [0] + [] == [0 as byte];
    assert q.version[LENGTH_FIELD_LEN..] == Sealed(p, q.before.a, q.garbage, [0]).1;
  }

  /** The version packet must open with the garbage that was found as associated data: a side that gets another one
      breaks off, and only then. */
  lemma BrokenIff(p: Primitives, k: Keys, garbage: bytes, n: nat, inbox: bytes)
    requires n >= HEADER_LEN + TAG_LEN
    ensures var i := k.recv.a.packetCounter;
            StepTail(p, VersionBody(k, garbage, n), inbox).Broken?
            <==> |inbox| >= n && p.open(k.recv.a.key, Le(i % 224, 4) + Le(i / 224, 8), garbage, inbox[..n]).None?
  {
    hide ContentsReceived;
    if |inbox| >= n {
      RejectedIff(p, k.recv.a, inbox[..n], garbage);
    }
  }

  /** The responder breaks off at the first packet of the user exactly if it does not open, or carries no marker; a
      decoy there is skipped. */
  lemma AppBrokenIff(s: Setup, net: Net)
    requires WellFormed(net) && net.r.AppBody? && |net.toR| >= net.r.aeadLen
    ensures var k, ct := net.r.k, net.toR[..net.r.aeadLen];
            var i := k.recv.a.packetCounter;
            var text := s.p.open(k.recv.a.key, Le(i % 224, 4) + Le(i / 224, 8), [], ct);
            var after := StepResponder(s, net).value.r;
            StepResponder(s, net).Some?
            && (after.ResponderBroken? <==>
                  text.None? || (text.value[0] as nat / 128 % 2 == 0 && ParseArk1(text.value[1..]).None?))
            && (after.RespTail? <==> text.Some? && text.value[0] as nat / 128 % 2 == 1)
  {
  }

  /** What each side sends over a whole handshake, byte for byte: its key, its garbage, its terminator, and as packet
      number 0 the empty version packet, which authenticates the garbage; the initiator then sends the first packet of
      its user. All keys come from the shared secret, under the labels of the sender. */
  lemma SentAsBip324(s: Setup)
    requires |s.first| < CONTENTS_LIMIT
    ensures var secret := s.p.ecdh(s.privI, s.KeyR(), s.KeyI(), true);
            var l, a := s.p.expand(SALT, secret, INITIATOR_L), s.p.expand(SALT, secret, INITIATOR_P);
            PlanI(s).All() == s.KeyI() + s.garbageI + s.p.expand(SALT, secret, GARBAGE_TERMINATORS)[..16]
                              + PacketBytes(s.p, l, a, 0, [], s.garbageI, false)
                              + PacketBytes(s.p, l, a, 1, s.first, [], false)
    ensures var secret := s.p.ecdh(s.privR, s.KeyI(), s.KeyR(), false);
            var l, a := s.p.expand(SALT, secret, RESPONDER_L), s.p.expand(SALT, secret, RESPONDER_P);
            PlanR(s).All() == s.KeyR() + s.garbageR + s.p.expand(SALT, secret, GARBAGE_TERMINATORS)[16..]
                              + PacketBytes(s.p, l, a, 0, [], s.garbageR, false)
  {
    hide Encoded, PacketBytes, CiphersAt;
    var secretI := s.p.ecdh(s.privI, s.KeyR(), s.KeyI(), true);
    SentOf(s.p, s.p.expand(SALT, secretI, INITIATOR_L), s.p.expand(SALT, secretI, INITIATOR_P), s.garbageI, s.first);
    var secretR := s.p.ecdh(s.privR, s.KeyI(), s.KeyR(), false);
    SentOf(s.p, s.p.expand(SALT, secretR, RESPONDER_L), s.p.expand(SALT, secretR, RESPONDER_P), s.garbageR, []);
  }

  /** The garbage has a length the senders can pick and holds no terminator; the first packet is an ARK1 packet;
      and the initiator's key does not look like a version 1 message. */
  ghost predicate Honest(s: Setup) {
    && |s.garbageI| < MAX_GARBAGE_LEN && |s.garbageR| < MAX_GARBAGE_LEN
    && NoEarlyTerminator(s.garbageI, KeysI(s).sendTerminator)
    && NoEarlyTerminator(s.garbageR, KeysR(s).sendTerminator)
    && |s.first| < CONTENTS_LIMIT && ParseArk1(s.first).Some?
    && s.KeyI()[..16] != V1_PREFIX
  }

  /** What the proofs use of the two plans. */
  ghost predicate World(s: Setup, qi: Plan, qr: Plan) {
    && qi.Valid(s.p) && qr.Valid(s.p)
    && qi.key == s.KeyI() && qi.garbage == s.garbageI && qr.key == s.KeyR() && qr.garbage == s.garbageR
    && KeysI(s).send == qi.before && KeysI(s).recv == qr.before
    && KeysI(s).sendTerminator == qi.terminator && KeysI(s).recvTerminator == qr.terminator
    && KeysR(s).send == qr.before && KeysR(s).recv == qi.before
    && KeysR(s).sendTerminator == qr.terminator && KeysR(s).recvTerminator == qi.terminator
    && |s.first| < CONTENTS_LIMIT && qi.app == Encoded(s.p, qi.after, s.first, [], false).1 && qr.app == []
    && ParseArk1(s.first).Some? && qi.key[..16] != V1_PREFIX
  }

  lemma HonestWorld(s: Setup)
    requires Honest(s)
    ensures World(s, PlanI(s), PlanR(s))
  {
    hide Encoded, DeriveSessionKeys;
    KeysMirror(s.p, s.p.ecdh(s.privI, s.KeyR(), s.KeyI(), true));
    assert s.p.ecdh(s.privI, s.KeyR(), s.KeyI(), true) == s.p.ecdh(s.privR, s.KeyI(), s.KeyR(), false);
  }

  function SentI(q: Plan, i: Initiator): nat {
    match i
    case Start => 0
    case ReadKey => q.GarbageEnd()
    case InTail(t) => if t.SkipFirst? || t.Skip? then q.TerminatorEnd() else q.VersionEnd()
    case _ => q.End()
  }

  function ReadI(q: Plan, i: Initiator): nat {
    match i
    case InTail(t) => ReadOf(q, t)
    case Finished(_) => q.VersionEnd()
    case _ => 0
  }

  function SentR(q: Plan, r: Responder): nat {
    match r
    case ReadPrefix => 0
    case ReadRest(_) => 0
    case RespTail(t) => if t.SkipFirst? || t.Skip? then q.GarbageEnd() else q.VersionEnd()
    case _ => q.End()
  }

  function ReadR(q: Plan, r: Responder): nat {
    match r
    case ReadPrefix => 0
    case ReadRest(_) => 16
    case RespTail(t) => ReadOf(q, t)
    case AppBody(_, _) => q.VersionEnd() + LENGTH_FIELD_LEN
    case _ => q.End()
  }

  /** The sending half of a side's keys in the shared phases. */
  ghost predicate SendsAs(q: Plan, t: Tail) {
    && t.k.sendTerminator == q.terminator
    && t.k.send == if t.SkipFirst? || t.Skip? then q.before else q.after
  }

  ghost predicate InitiatorOk(s: Setup, qi: Plan, qr: Plan, i: Initiator)
    requires |s.first| < CONTENTS_LIMIT
  {
    match i
    case Start => true
    case ReadKey => true
    case InTail(t) => TailOk(s.p, qr, t) && SendsAs(qi, t)
    case Finished(k) => k.recv == qr.after && k.send == Encoded(s.p, qi.after, s.first, [], false).0
    case InitiatorBroken => false
  }

  ghost predicate ResponderOk(s: Setup, qi: Plan, qr: Plan, r: Responder)
    requires |s.first| < CONTENTS_LIMIT
  {
    var done := Encoded(s.p, qi.after, s.first, [], false).0;
    match r
    case ReadPrefix => true
    case ReadRest(prefix) => |qi.key| == ELLSWIFT_LEN && prefix == qi.key[..16]
    case RespTail(t) => TailOk(s.p, qi, t) && SendsAs(qr, t)
    case AppBody(k, aeadLen) =>
      k.send == qr.after && k.recv == Ciphers(done.l, qi.after.a) && aeadLen == |qi.app| - LENGTH_FIELD_LEN
      && aeadLen >= HEADER_LEN + TAG_LEN
    case ArkClient(k, uuid, extra) =>
      && k.send == qr.after && k.recv == done
      && |s.first| >= MARKER_LEN && ParseArk1(s.first) == Some(uuid) && extra == s.first[MARKER_LEN..]
    case _ => false
  }

  /** Both processes are on track, and each channel holds what was sent and not yet read. */
  ghost predicate Inv(s: Setup, qi: Plan, qr: Plan, n: Net)
    requires |s.first| < CONTENTS_LIMIT
  {
    && WellFormed(n) && InitiatorOk(s, qi, qr, n.i) && ResponderOk(s, qi, qr, n.r)
    && ReadR(qi, n.r) <= SentI(qi, n.i) <= qi.End() && n.toR == qi.All()[ReadR(qi, n.r)..SentI(qi, n.i)]
    && ReadI(qr, n.i) <= SentR(qr, n.r) <= qr.End() && n.toI == qr.All()[ReadI(qr, n.i)..SentR(qr, n.r)]
  }

  function RankI(i: Initiator): nat {
    match i
    case Start => 7
    case ReadKey => 6
    case InTail(t) => Rank(t)
    case _ => 0
  }

  function RankR(r: Responder): nat {
    match r
    case ReadPrefix => 7
    case ReadRest(_) => 6
    case RespTail(t) => Rank(t)
    case _ => 0
  }

  /** Bytes still to be read and phases still to be entered. */
  ghost function Measure(qi: Plan, qr: Plan, n: Net): int {
    qr.End() - ReadI(qr, n.i) + qi.End() - ReadR(qi, n.r) + RankI(n.i) + RankR(n.r)
  }

  // ----- Every step keeps the invariant and gets closer to the end ----------

  lemma SliceWrite(all: bytes, a: nat, b: nat, w: bytes)
    requires a <= b && b + |w| <= |all| && all[b..b + |w|] == w
    ensures all[a..b] + w == all[a..b + |w|]
  {
  }

  ghost predicate Forward(s: Setup, qi: Plan, qr: Plan, n: Net, m: Net)
    requires |s.first| < CONTENTS_LIMIT
  {
    Inv(s, qi, qr, m) && Measure(qi, qr, m) < Measure(qi, qr, n)
  }

  lemma InitiatorStarts(s: Setup, qi: Plan, qr: Plan, n: Net)
    requires World(s, qi, qr) && Inv(s, qi, qr, n) && n.i.Start?
    ensures Forward(s, qi, qr, n, StepInitiator(s, n).value)
  {
    hide ResponderOk, NoEarlyTerminator, Encoded, KeysI, KeysR;
    qi.Parts();
    assert qi.All()[0..qi.GarbageEnd()] == qi.key + qi.garbage;
    assert n.toR == [];
    assert n.toR + s.KeyI() + s.garbageI == qi.key + qi.garbage;
  }

  lemma InitiatorReadsKey(s: Setup, qi: Plan, qr: Plan, n: Net)
    requires World(s, qi, qr) && Inv(s, qi, qr, n) && n.i.ReadKey? && StepInitiator(s, n).Some?
    ensures Forward(s, qi, qr, n, StepInitiator(s, n).value)
  {
    hide ResponderOk, NoEarlyTerminator, Encoded, DeriveSessionKeys;
    qi.Parts();
    qr.Parts();
    SliceRead(qr.All(), 0, SentR(qr, n.r), ELLSWIFT_LEN);
    SliceWrite(qi.All(), ReadR(qi, n.r), qi.GarbageEnd(), qi.terminator);
  }

  lemma InitiatorFinds(s: Setup, qi: Plan, qr: Plan, n: Net)
    requires World(s, qi, qr) && Inv(s, qi, qr, n)
    requires n.i.InTail? && n.i.t.Skip? && StepTail(s.p, n.i.t, n.toI) == Found(n.i.t.k, qr.garbage)
    requires ReadOf(qr, n.i.t) == qr.TerminatorEnd()
    ensures StepInitiator(s, n).Some? && Forward(s, qi, qr, n, StepInitiator(s, n).value)
  {
    hide ResponderOk, NoEarlyTerminator, Encoded, KeysI, KeysR, StepTail, Plan.All;
    qi.Parts();
    SliceWrite(qi.All(), ReadR(qi, n.r), qi.TerminatorEnd(), qi.version);
  }

  lemma InitiatorMoves(s: Setup, qi: Plan, qr: Plan, n: Net)
    requires World(s, qi, qr) && Inv(s, qi, qr, n)
    requires n.i.InTail? && !n.i.t.Established? && StepInitiator(s, n).Some?
    ensures Forward(s, qi, qr, n, StepInitiator(s, n).value)
  {
    hide ResponderOk, NoEarlyTerminator, Encoded, KeysI, KeysR, StepTail, TailOk, Plan.All;
    TailProgress(s.p, qr, n.i.t, SentR(qr, n.r));
    if StepTail(s.p, n.i.t, n.toI).Found? {
      InitiatorFinds(s, qi, qr, n);
    }
  }

  lemma InitiatorFinishes(s: Setup, qi: Plan, qr: Plan, n: Net)
    requires World(s, qi, qr) && Inv(s, qi, qr, n) && n.i.InTail? && n.i.t.Established?
    ensures Forward(s, qi, qr, n, StepInitiator(s, n).value)
  {
    hide ResponderOk, NoEarlyTerminator, Encoded, KeysI, KeysR;
    qi.Parts();
    assert qi.All()[qi.VersionEnd()..qi.End()] == qi.app;
    SliceWrite(qi.All(), ReadR(qi, n.r), qi.VersionEnd(), qi.app);
  }

  lemma ResponderReadsPrefix(s: Setup, qi: Plan, qr: Plan, n: Net)
    requires World(s, qi, qr) && Inv(s, qi, qr, n) && n.r.ReadPrefix? && StepResponder(s, n).Some?
    ensures Forward(s, qi, qr, n, StepResponder(s, n).value)
  {
    hide InitiatorOk, NoEarlyTerminator, Encoded, KeysI, KeysR;
    qi.Parts();
    SliceRead(qi.All(), 0, SentI(qi, n.i), 16);
    assert qi.All()[0..16] == qi.key[..16];
  }

  lemma ResponderReadsRest(s: Setup, qi: Plan, qr: Plan, n: Net)
    requires World(s, qi, qr) && Inv(s, qi, qr, n) && n.r.ReadRest? && StepResponder(s, n).Some?
    ensures Forward(s, qi, qr, n, StepResponder(s, n).value)
  {
    hide InitiatorOk, NoEarlyTerminator, Encoded, DeriveSessionKeys;
    qi.Parts();
    qr.Parts();
    SliceRead(qi.All(), 16, SentI(qi, n.i), 48);
    assert n.r.prefix + n.toR[..48] == qi.key;
    assert n.toI + s.KeyR() + s.garbageR == qr.key + qr.garbage == qr.All()[0..qr.GarbageEnd()];
  }

  lemma ResponderFinds(s: Setup, qi: Plan, qr: Plan, n: Net)
    requires World(s, qi, qr) && Inv(s, qi, qr, n)
    requires n.r.RespTail? && n.r.t.Skip? && StepTail(s.p, n.r.t, n.toR) == Found(n.r.t.k, qi.garbage)
    requires ReadOf(qi, n.r.t) == qi.TerminatorEnd()
    ensures StepResponder(s, n).Some? && Forward(s, qi, qr, n, StepResponder(s, n).value)
  {
    hide InitiatorOk, NoEarlyTerminator, Encoded, KeysI, KeysR, StepTail, Plan.All;
    qr.Parts();
    SliceWrite(qr.All(), ReadI(qr, n.i), qr.GarbageEnd(), qr.terminator);
    SliceWrite(qr.All(), ReadI(qr, n.i), qr.TerminatorEnd(), qr.version);
  }

  lemma ResponderMoves(s: Setup, qi: Plan, qr: Plan, n: Net)
    requires World(s, qi, qr) && Inv(s, qi, qr, n)
    requires n.r.RespTail? && !n.r.t.Established? && StepResponder(s, n).Some?
    ensures Forward(s, qi, qr, n, StepResponder(s, n).value)
  {
    hide InitiatorOk, NoEarlyTerminator, Encoded, KeysI, KeysR, StepTail, TailOk, Plan.All;
    TailProgress(s.p, qi, n.r.t, SentI(qi, n.i));
    if StepTail(s.p, n.r.t, n.toR).Found? {
      ResponderFinds(s, qi, qr, n);
    }
  }

  /** The first application packet is received as any packet. */
  lemma AppReceived(s: Setup, qi: Plan, qr: Plan)
    requires World(s, qi, qr)
    ensures var done, n := Encoded(s.p, qi.after, s.first, [], false).0, LENGTH_FIELD_LEN;
            && |qi.app| == n + HEADER_LEN + |s.first| + TAG_LEN
            && LengthReceived(s.p, qi.after.l, qi.app[..n]) == (done.l, |qi.app| - n)
            && ContentsReceived(s.p, qi.after.a, qi.app[n..], []) == (done.a, Contents(s.first))
            && |s.first| < CONTENTS_LIMIT && ParseArk1(s.first).Some? && qr.app == []
  {
    hide Encoded, KeysI, KeysR, LengthReceived, ContentsReceived;
    PacketRoundTrip(s.p, qi.after, s.first, [], false);
  }

  lemma ResponderReadsAppLength(s: Setup, qi: Plan, qr: Plan, n: Net)
    requires World(s, qi, qr) && Inv(s, qi, qr, n)
    requires n.r.RespTail? && n.r.t.Established? && StepResponder(s, n).Some?
    ensures Forward(s, qi, qr, n, StepResponder(s, n).value)
  {
    hide World, InitiatorOk, Encoded, LengthReceived, ContentsReceived, StepTail, ParseArk1, Plan.All;
    AppReceived(s, qi, qr);
    qi.AppParts(LENGTH_FIELD_LEN);
    SliceRead(qi.All(), ReadR(qi, n.r), SentI(qi, n.i), LENGTH_FIELD_LEN);
  }

  lemma ResponderReadsApp(s: Setup, qi: Plan, qr: Plan, n: Net)
    requires World(s, qi, qr) && Inv(s, qi, qr, n) && n.r.AppBody? && StepResponder(s, n).Some?
    ensures Forward(s, qi, qr, n, StepResponder(s, n).value)
  {
    hide World, InitiatorOk, Encoded, ContentsReceived, StepTail, TailOk, SendsAs, ParseArk1, Plan.All;
    AppReceived(s, qi, qr);
    qi.AppParts(LENGTH_FIELD_LEN);
    SliceRead(qi.All(), ReadR(qi, n.r), SentI(qi, n.i), n.r.aeadLen);
  }

  // ----- Whole runs ---------------------------------------------------------

  ghost predicate Steps(s: Setup, n: Net, m: Net)
    requires |s.first| < CONTENTS_LIMIT
  {
    WellFormed(n) && (StepInitiator(s, n) == Some(m) || StepResponder(s, n) == Some(m))
  }

  /** A run from the initial state: each step is taken by one of the two processes. */
  ghost predicate IsRun(s: Setup, run: seq<Net>)
    requires |s.first| < CONTENTS_LIMIT
  {
    run != [] && run[0] == INITIAL && forall j :: 0 <= j < |run| - 1 ==> Steps(s, run[j], run[j + 1])
  }

  /** Both sides are through, each sends with what the other receives with, and the responder has the user's
      identifier and whatever came behind it. */
  ghost predicate Complete(s: Setup, n: Net) {
    && n.i.Finished? && n.r.ArkClient?
    && n.i.k.send == n.r.k.recv && n.r.k.send == n.i.k.recv
    && |s.first| >= MARKER_LEN && ParseArk1(s.first) == Some(n.r.uuid) && n.r.extra == s.first[MARKER_LEN..]
    && n.toR == n.toI == []
  }

  lemma StepForward(s: Setup, qi: Plan, qr: Plan, n: Net, m: Net)
    requires World(s, qi, qr) && Inv(s, qi, qr, n) && Steps(s, n, m)
    ensures Forward(s, qi, qr, n, m)
  {
    hide KeysI, KeysR, Inv, Forward, Encoded, StepTail, DeriveSessionKeys, LengthReceived, ContentsReceived;
    if StepInitiator(s, n) == Some(m) {
      match n.i
      case Start => InitiatorStarts(s, qi, qr, n);
      case ReadKey => InitiatorReadsKey(s, qi, qr, n);
      case InTail(Established(_)) => InitiatorFinishes(s, qi, qr, n);
      case InTail(_) => InitiatorMoves(s, qi, qr, n);
    } else {
      match n.r
      case ReadPrefix => ResponderReadsPrefix(s, qi, qr, n);
      case ReadRest(_) => ResponderReadsRest(s, qi, qr, n);
      case RespTail(Established(_)) => ResponderReadsAppLength(s, qi, qr, n);
      case RespTail(_) => ResponderMoves(s, qi, qr, n);
      case AppBody(_, _) => ResponderReadsApp(s, qi, qr, n);
    }
  }

  lemma StartsOnTrack(s: Setup, qi: Plan, qr: Plan)
    requires World(s, qi, qr)
    ensures Inv(s, qi, qr, INITIAL) && Measure(qi, qr, INITIAL) == qi.End() + qr.End() + 14
  {
    hide Encoded, KeysI, KeysR;
  }

  lemma {:induction false} RunOnTrack(s: Setup, qi: Plan, qr: Plan, run: seq<Net>)
    requires World(s, qi, qr) && IsRun(s, run)
    ensures forall j :: 0 <= j < |run| ==> Inv(s, qi, qr, run[j])
    ensures |run| + Measure(qi, qr, run[|run| - 1]) <= qi.End() + qr.End() + 15
    decreases |run|
  {
    hide World, Inv, Steps, Measure;
    StartsOnTrack(s, qi, qr);
    if |run| == 1 {
    } else {
      var before := run[..|run| - 1];
      RunOnTrack(s, qi, qr, before);
      assert before[|before| - 1] == run[|run| - 2];
      StepForward(s, qi, qr, run[|run| - 2], run[|run| - 1]);
    }
  }

  // ----- Nobody waits for ever ----------------------------------------------

  /** While the responder has not sent its version packet, the initiator's bytes so far let it move. */
  lemma ResponderNotBlocked(s: Setup, qi: Plan, qr: Plan, n: Net)
    requires World(s, qi, qr) && Inv(s, qi, qr, n) && SentR(qr, n.r) < qr.VersionEnd()
    requires n.r.ReadPrefix? || n.r.ReadRest? || SentI(qi, n.i) >= qi.TerminatorEnd()
    requires SentI(qi, n.i) >= qi.GarbageEnd()
    ensures StepResponder(s, n).Some?
  {
    hide Encoded, KeysI, KeysR, StepTail, LengthReceived, ContentsReceived;
    if n.r.RespTail? {
      TailProgress(s.p, qi, n.r.t, SentI(qi, n.i));
    }
  }

  /** Once the initiator has sent everything, the responder can move until it is through. */
  lemma ResponderDrains(s: Setup, qi: Plan, qr: Plan, n: Net)
    requires World(s, qi, qr) && Inv(s, qi, qr, n) && n.i.Finished? && !n.r.ArkClient?
    ensures StepResponder(s, n).Some?
  {
    hide Encoded, KeysI, KeysR, StepTail, LengthReceived, ContentsReceived;
    PacketRoundTrip(s.p, qi.after, s.first, [], false);
    if n.r.RespTail? && !n.r.t.Established? {
      TailProgress(s.p, qi, n.r.t, SentI(qi, n.i));
    }
  }

  lemma SomebodyMovesInTail(s: Setup, qi: Plan, qr: Plan, n: Net)
    requires World(s, qi, qr) && Inv(s, qi, qr, n) && n.i.InTail? && !n.i.t.Established?
    ensures StepInitiator(s, n).Some? || StepResponder(s, n).Some?
  {
    hide Encoded, KeysI, KeysR, StepTail, StepResponder, ResponderOk, Plan.All, NoEarlyTerminator;
    VersionLengths(s.p, qr);
    TailProgress(s.p, qr, n.i.t, SentR(qr, n.r));
    if StepInitiator(s, n).None? {
      ResponderNotBlocked(s, qi, qr, n);
    }
  }

  lemma SomebodyMoves(s: Setup, qi: Plan, qr: Plan, n: Net)
    requires World(s, qi, qr) && Inv(s, qi, qr, n) && !Complete(s, n)
    ensures StepInitiator(s, n).Some? || StepResponder(s, n).Some?
  {
    hide Encoded, KeysI, KeysR, StepTail, StepResponder, TailOk, Plan.All, NoEarlyTerminator;
    match n.i
    case Start =>
    case ReadKey =>
      VersionLengths(s.p, qr);
      if |n.toI| < ELLSWIFT_LEN {
        ResponderNotBlocked(s, qi, qr, n);
      }
    case InTail(t) =>
      if !t.Established? {
        SomebodyMovesInTail(s, qi, qr, n);
      }
    case Finished(_) =>
      if !n.r.ArkClient? {
        ResponderDrains(s, qi, qr, n);
      }
  }

  /** No process is broken or has taken the other for a version 1 peer, and each holds exactly the other's
      garbage once it has found it, which is what it authenticates with the version packet. */
  ghost predicate Sound(s: Setup, n: Net) {
    && !n.i.InitiatorBroken? && !n.r.ResponderBroken? && !n.r.RealPeer?
    && (n.i.InTail? && (n.i.t.VersionLength? || n.i.t.VersionBody?) ==> n.i.t.garbage == s.garbageR)
    && (n.r.RespTail? && (n.r.t.VersionLength? || n.r.t.VersionBody?) ==> n.r.t.garbage == s.garbageI)
  }

  lemma TrackIsSound(s: Setup, qi: Plan, qr: Plan, n: Net)
    requires World(s, qi, qr) && Inv(s, qi, qr, n)
    ensures Sound(s, n)
  {
    hide Encoded, KeysI, KeysR;
  }

  lemma MeasurePositive(s: Setup, qi: Plan, qr: Plan, n: Net)
    requires World(s, qi, qr) && Inv(s, qi, qr, n)
    ensures Measure(qi, qr, n) >= 0 && WellFormed(n)
  {
    hide Encoded, KeysI, KeysR;
  }

  /** Every honest run is sound and bounded, and it can be prolonged until both sides agree on all keys, so every
      run that goes on while it can completes. */
  lemma HandshakeCompletes(s: Setup, run: seq<Net>)
    requires Honest(s) && IsRun(s, run)
    ensures forall j :: 0 <= j < |run| ==> Sound(s, run[j])
    ensures |run| <= PlanI(s).End() + PlanR(s).End() + 15
    ensures Complete(s, run[|run| - 1]) || exists m :: IsRun(s, run + [m])
  {
    hide Complete, World, Inv, PlanI, PlanR, Measure, Sound, KeysI, KeysR;
    HonestWorld(s);
    var qi, qr, last := PlanI(s), PlanR(s), run[|run| - 1];
    RunOnTrack(s, qi, qr, run);
    MeasurePositive(s, qi, qr, last);
    forall j | 0 <= j < |run| ensures Sound(s, run[j]) {
      TrackIsSound(s, qi, qr, run[j]);
    }
    if !Complete(s, last) {
      SomebodyMoves(s, qi, qr, last);
      var next := if StepInitiator(s, last).Some? then StepInitiator(s, last).value else StepResponder(s, last).value;
      assert Steps(s, last, next);
      assert IsRun(s, run + [next]);
    }
  }

  ghost predicate LooksLikeV1(s: Setup, n: Net) {
    && n.toI == [] && (n.i.Start? || n.i.ReadKey?)
    && match n.r
       case ReadPrefix => n.toR == if n.i.Start? then [] else s.KeyI() + s.garbageI
       case RealPeer(peeked) => n.i.ReadKey? && peeked == V1_PREFIX && n.toR == (s.KeyI() + s.garbageI)[16..]
       case _ => false
  }

  /** How many steps lead to such a state. */
  function V1Steps(n: Net): nat {
    if n.r.RealPeer? then 2 else if n.i.ReadKey? then 1 else 0
  }

  lemma V1Step(s: Setup, n: Net, m: Net)
    requires |s.first| < CONTENTS_LIMIT && s.KeyI()[..16] == V1_PREFIX && LooksLikeV1(s, n) && Steps(s, n, m)
    ensures LooksLikeV1(s, m) && V1Steps(m) == V1Steps(n) + 1
  {
    hide StepTail, Encoded, DeriveSessionKeys, LengthReceived, ContentsReceived;
    var sent := s.KeyI() + s.garbageI;
    assert [] + s.KeyI() + s.garbageI == sent && sent[..16] == s.KeyI()[..16];
  }

  lemma V1Moves(s: Setup, n: Net)
    requires |s.first| < CONTENTS_LIMIT && LooksLikeV1(s, n) && !n.r.RealPeer?
    ensures WellFormed(n) && (StepInitiator(s, n).Some? || StepResponder(s, n).Some?)
  {
    hide StepTail, Encoded, DeriveSessionKeys, LengthReceived, ContentsReceived;
  }

  lemma V1Prolonged(s: Setup, run: seq<Net>)
    requires |s.first| < CONTENTS_LIMIT && IsRun(s, run)
    requires LooksLikeV1(s, run[|run| - 1]) && !run[|run| - 1].r.RealPeer?
    ensures exists m :: IsRun(s, run + [m])
  {
    hide StepInitiator, StepResponder, LooksLikeV1;
    var last := run[|run| - 1];
    V1Moves(s, last);
    var next := if StepInitiator(s, last).Some? then StepInitiator(s, last).value else StepResponder(s, last).value;
    assert Steps(s, last, next);
    assert IsRun(s, run + [next]);
  }

  /** The condition on the initiator's key is needed: with a key that starts like a version 1 message, every run has
      at most three states and can be prolonged until the responder hands the connection to a real node, with
      exactly the 16 bytes it consumed. */
  lemma {:induction false} V1KeyIsForwarded(s: Setup, run: seq<Net>)
    requires |s.first| < CONTENTS_LIMIT && s.KeyI()[..16] == V1_PREFIX && IsRun(s, run)
    ensures forall j :: 0 <= j < |run| ==> LooksLikeV1(s, run[j])
    ensures |run| == V1Steps(run[|run| - 1]) + 1 <= 3
    ensures run[|run| - 1].r.RealPeer? || exists m :: IsRun(s, run + [m])
    decreases |run|
  {
    hide Steps;
    var last := run[|run| - 1];
    if |run| == 1 {
    } else {
      var before := run[..|run| - 1];
      V1KeyIsForwarded(s, before);
      assert before[|before| - 1] == run[|run| - 2];
      V1Step(s, run[|run| - 2], last);
    }
    if !last.r.RealPeer? {
      V1Prolonged(s, run);
    }
  }
}
