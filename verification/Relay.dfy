/** The prefix relay: the DHCP, RA, RS and main threads share one prefix record
    under a mutex.  Every thread is a program counter that moves one atomic step
    at a time; a run is any sequence of steps. */
module Relay {
  import opened Bytes

  const IMAGE_SIZE := 25

  /** The octets of an IA Prefix option's data as received. */
  type Image = s: seq<byte> | |s| == IMAGE_SIZE witness seq(IMAGE_SIZE, _ => 0)

  /** The shared record, as the host reads its fields. */
  datatype Lease = Lease(preferred: uint32, valid: uint32, prefixLength: byte, prefix: Address)

  const ZERO_LEASE := Lease(0, 0, 0, [0, 0, 0, 0, 0, 0, 0, 0, 0, 0, 0, 0, 0, 0, 0, 0])

  function FromImage(host: Host, image: Image): Lease {
    Lease(Load32(host, image, 0), Load32(host, image, 4), image[8], image[9..25])
  }

  /** One DHCP exchange: a reply whose IA Prefix is copied into the record, or
      a failed send, which leaves the record alone. */
  datatype Outcome = Delivered(image: Image) | SendFailed

  function Received(host: Host, before: Lease, outcome: Outcome): Lease {
    match outcome
    case Delivered(image) => FromImage(host, image)
    case SendFailed => before
  }

  function SwapPreferred(host: Host, l: Lease): Lease {
    l.(preferred := HToBe32(host, l.preferred))
  }

  function SwapValid(host: Host, l: Lease): Lease {
    l.(valid := HToBe32(host, l.valid))
  }

  /** What follows every exchange, failed ones included. */
  function Processed(host: Host, l: Lease): Lease {
    SwapValid(host, SwapPreferred(host, l)).(prefixLength := 64)
  }

  /** The record after a sequence of completed exchanges. */
  function Published(host: Host, initial: Lease, outcomes: seq<Outcome>): Lease {
    if outcomes == [] then initial
    else
      var n := |outcomes| - 1;
      Processed(host, Received(host, Published(host, initial, outcomes[..n]), outcomes[n]))
  }

  /** The arguments of one Router Advertisement. */
  datatype Ra = Ra(prefix: Address, prefixLength: byte, valid: uint32, preferred: uint32)

  function RaOf(l: Lease): Ra {
    Ra(l.prefix, l.prefixLength, l.valid, l.preferred)
  }

  // ---- state ----

  datatype ThreadId = DhcpThread | RaThread | RsThread

  datatype Field = PreferredField | ValidField | LengthField | PrefixField

  const ALL_FIELDS: set<Field> := {PreferredField, ValidField, LengthField, PrefixField}

  datatype DhcpPc =
    | DhcpNotStarted
    | DhcpSetup
    | DhcpCheck
    | DhcpLock
    | DhcpSend
    | DhcpAwait
    | DhcpCopy(image: Image, todo: set<Field>)
    | DhcpSwapPreferred
    | DhcpSwapValid
    | DhcpSetLength
    | DhcpUnlock
    | DhcpSleep
    | DhcpDone

  /** The RA and RS threads; they differ only in where they pause. */
  datatype AdvPc =
    | AdvNotStarted
    | AdvSetup
    | AdvCheck
    | AdvReceive
    | AdvLock
    | AdvReadPrefix
    | AdvReadRest(prefix: Address)
    | AdvSend(ra: Ra)
    | AdvUnlock
    | AdvSleep
    | AdvDone

  datatype MainPc = MainStart | MainSpin | MainStartRa | MainStartRs | MainWait | MainExit

  datatype Mode = DhcpMode | StaticMode(prefix: Address, prefixLength: byte)

  /** A sent advertisement, with the number of exchanges whose outcome was known
      when it was sent. */
  datatype Sent = Sent(ra: Ra, after: nat)

  datatype State = State(
    mode: Mode, prefix: Lease, holder: Option<ThreadId>,
    dhcp: DhcpPc, ra: AdvPc, rs: AdvPc, main: MainPc,
    cancelDhcp: bool, cancelRa: bool, cancelRs: bool,
    outcomes: seq<Outcome>, sent: seq<Sent>)

  function Initial(mode: Mode): Lease {
    match mode
    case DhcpMode => ZERO_LEASE
    case StaticMode(prefix, length) => Lease(24000, 48000, length, prefix)
  }

  function Init(mode: Mode): State {
    State(mode, Initial(mode), None, DhcpNotStarted, AdvNotStarted, AdvNotStarted, MainStart,
          false, false, false, [], [])
  }

  // ---- steps ----

  /** Which thread moves, with the choices the environment makes for it.  The
      order in which a copy writes its fields is one of these choices, the end of
      a sleep and the arrival of a solicitation are others. */
  datatype Event =
    | MainRuns
    | DhcpRuns
    | DhcpAborts(flagged: bool)
    | DhcpSends(accepted: bool)
    | DhcpReceives(image: Image)
    | DhcpCopies(field: Field)
    | DhcpWakes
    | RaRuns
    | RaAborts
    | RaWakes
    | RsRuns
    | RsAborts(fatal: bool)
    | RsReceives
    | Signal

  function CopyField(l: Lease, source: Lease, f: Field): Lease {
    match f
    case PreferredField => l.(preferred := source.preferred)
    case ValidField => l.(valid := source.valid)
    case LengthField => l.(prefixLength := source.prefixLength)
    case PrefixField => l.(prefix := source.prefix)
  }

  function MainStep(s: State): State {
    match s.main
    case MainStart =>
      if s.mode.DhcpMode? then s.(dhcp := DhcpSetup, main := MainSpin) else s.(main := MainStartRa)
    case MainSpin => if s.prefix.prefixLength == 0 then s else s.(main := MainStartRa)
    case MainStartRa => s.(ra := AdvSetup, main := MainStartRs)
    case MainStartRs => s.(rs := AdvSetup, main := MainWait)
    case MainWait => if s.cancelRs || s.cancelRa then s.(main := MainExit) else s
    case MainExit => s
  }

  function DhcpStep(host: Host, s: State): State {
    match s.dhcp
    case DhcpSetup => s.(dhcp := DhcpCheck)
    case DhcpCheck => s.(dhcp := if s.cancelDhcp then DhcpDone else DhcpLock)
    case DhcpLock => if s.holder == None then s.(holder := Some(DhcpThread), dhcp := DhcpSend) else s
    case DhcpSwapPreferred => s.(prefix := SwapPreferred(host, s.prefix), dhcp := DhcpSwapValid)
    case DhcpSwapValid => s.(prefix := SwapValid(host, s.prefix), dhcp := DhcpSetLength)
    case DhcpSetLength => s.(prefix := s.prefix.(prefixLength := 64), dhcp := DhcpUnlock)
    case DhcpUnlock => s.(holder := None, dhcp := DhcpSleep)
    case _ => s
  }

  /** Moves that touch no shared data.  A thread gives up before its loop because
      its socket cannot be made or bound: the DHCP thread raises its cancel flag
      in one of these cases, the RA thread in all, and the RS thread ends the
      whole process in some.  A sleep ends, or a solicitation arrives. */
  function ControlStep(s: State, e: Event): State {
    match e
    case DhcpAborts(flagged) =>
      if s.dhcp.DhcpSetup? then s.(dhcp := DhcpDone, cancelDhcp := s.cancelDhcp || flagged) else s
    case DhcpWakes => if s.dhcp.DhcpSleep? then s.(dhcp := DhcpCheck) else s
    case RaAborts => if s.ra.AdvSetup? then s.(ra := AdvDone, cancelRa := true) else s
    case RaWakes => if s.ra.AdvSleep? then s.(ra := AdvCheck) else s
    case RsAborts(fatal) =>
      if !s.rs.AdvSetup? then s else if fatal then s.(main := MainExit) else s.(rs := AdvDone)
    case RsReceives => if s.rs.AdvReceive? then s.(rs := AdvLock) else s
    case _ => s
  }

  /** The send returns at once.  Only here can an exchange fail; if the packet
      was accepted, the thread goes on to wait for a reply without a time limit,
      still holding the mutex. */
  function SendStep(s: State, accepted: bool): State {
    if !s.dhcp.DhcpSend? then s
    else if accepted then s.(dhcp := DhcpAwait)
    else s.(outcomes := s.outcomes + [SendFailed], dhcp := DhcpSwapPreferred)
  }

  /** A reply arrives. */
  function ReceiveStep(s: State, image: Image): State {
    if s.dhcp.DhcpAwait? then
      s.(outcomes := s.outcomes + [Delivered(image)], dhcp := DhcpCopy(image, ALL_FIELDS))
    else s
  }

  function AfterCopy(image: Image, todo: set<Field>): DhcpPc {
    if todo == {} then DhcpSwapPreferred else DhcpCopy(image, todo)
  }

  function CopyStep(host: Host, s: State, f: Field): State {
    if s.dhcp.DhcpCopy? && f in s.dhcp.todo then
      s.(prefix := CopyField(s.prefix, FromImage(host, s.dhcp.image), f), dhcp := AfterCopy(s.dhcp.image, s.dhcp.todo - {f}))
    else s
  }

  /** Where an advertising thread goes next. */
  function AdvNext(pc: AdvPc, me: ThreadId, cancelled: bool, free: bool, prefix: Lease): AdvPc {
    match pc
    case AdvSetup => AdvCheck
    case AdvCheck => if cancelled then AdvDone else if me == RsThread then AdvReceive else AdvLock
    case AdvLock => if free then AdvReadPrefix else AdvLock
    case AdvReadPrefix => AdvReadRest(prefix.prefix)
    case AdvReadRest(address) => AdvSend(Ra(address, prefix.prefixLength, prefix.valid, prefix.preferred))
    case AdvSend(_) => AdvUnlock
    case AdvUnlock => if me == RaThread then AdvSleep else AdvCheck
    case _ => pc
  }

  function AdvHolder(pc: AdvPc, me: ThreadId, holder: Option<ThreadId>): Option<ThreadId> {
    if pc.AdvLock? && holder == None then Some(me) else if pc.AdvUnlock? then None else holder
  }

  function AdvSent(pc: AdvPc, after: nat, sent: seq<Sent>): seq<Sent> {
    if pc.AdvSend? then sent + [Sent(pc.ra, after)] else sent
  }

  function RaStep(s: State): State {
    s.(ra := AdvNext(s.ra, RaThread, s.cancelRa, s.holder == None, s.prefix),
       holder := AdvHolder(s.ra, RaThread, s.holder),
       sent := AdvSent(s.ra, |s.outcomes|, s.sent))
  }

  function RsStep(s: State): State {
    s.(rs := AdvNext(s.rs, RsThread, s.cancelRs, s.holder == None, s.prefix),
       holder := AdvHolder(s.rs, RsThread, s.holder),
       sent := AdvSent(s.rs, |s.outcomes|, s.sent))
  }

  /** A step that is not enabled changes nothing; after `main` returns nothing
      moves any more. */
  function Step(host: Host, s: State, e: Event): State {
    if s.main == MainExit then s
    else
      match e
      case MainRuns => MainStep(s)
      case DhcpRuns => DhcpStep(host, s)
      case DhcpSends(accepted) => SendStep(s, accepted)
      case DhcpReceives(image) => ReceiveStep(s, image)
      case DhcpCopies(field) => CopyStep(host, s, field)
      case RaRuns => RaStep(s)
      case RsRuns => RsStep(s)
      case Signal => s.(cancelDhcp := true, cancelRa := true, cancelRs := true)
      case _ => ControlStep(s, e)
  }

  function Exec(host: Host, s: State, events: seq<Event>): State {
    if events == [] then s else Step(host, Exec(host, s, events[..|events| - 1]), events[|events| - 1])
  }

  // ---- invariant ----

  predicate DhcpCritical(pc: DhcpPc) {
    pc.DhcpSend? || pc.DhcpAwait? || pc.DhcpCopy? || pc.DhcpSwapPreferred? || pc.DhcpSwapValid?
    || pc.DhcpSetLength? || pc.DhcpUnlock?
  }

  predicate AdvCritical(pc: AdvPc) {
    pc.AdvReadPrefix? || pc.AdvReadRest? || pc.AdvSend? || pc.AdvUnlock?
  }

  predicate HolderInv(holder: Option<ThreadId>, dhcp: DhcpPc, ra: AdvPc, rs: AdvPc) {
    && (holder == Some(DhcpThread) <==> DhcpCritical(dhcp))
    && (holder == Some(RaThread) <==> AdvCritical(ra))
    && (holder == Some(RsThread) <==> AdvCritical(rs))
  }

  /** The record between the exchange and the end of its processing. */
  function Raw(host: Host, initial: Lease, outcomes: seq<Outcome>): Lease
    requires outcomes != []
  {
    var n := |outcomes| - 1;
    Received(host, Published(host, initial, outcomes[..n]), outcomes[n])
  }

  predicate Copied(l: Lease, source: Lease, todo: set<Field>) {
    && (PreferredField !in todo ==> l.preferred == source.preferred)
    && (ValidField !in todo ==> l.valid == source.valid)
    && (LengthField !in todo ==> l.prefixLength == source.prefixLength)
    && (PrefixField !in todo ==> l.prefix == source.prefix)
  }

  predicate PrefixInv(host: Host, initial: Lease, prefix: Lease, dhcp: DhcpPc, outcomes: seq<Outcome>) {
    match dhcp
    case DhcpCopy(image, todo) =>
      outcomes != [] && outcomes[|outcomes| - 1] == Delivered(image) && todo != {} && Copied(prefix, FromImage(host, image), todo)
    case DhcpSwapPreferred => outcomes != [] && prefix == Raw(host, initial, outcomes)
    case DhcpSwapValid => outcomes != [] && prefix == SwapPreferred(host, Raw(host, initial, outcomes))
    case DhcpSetLength => outcomes != [] && prefix == SwapValid(host, SwapPreferred(host, Raw(host, initial, outcomes)))
    case DhcpUnlock => outcomes != [] && prefix == Published(host, initial, outcomes)
    case DhcpSleep => outcomes != [] && prefix == Published(host, initial, outcomes)
    case _ => prefix == Published(host, initial, outcomes)
  }

  predicate AdvInv(prefix: Lease, pc: AdvPc) {
    && (pc.AdvReadRest? ==> pc.prefix == prefix.prefix)
    && (pc.AdvSend? ==> pc.ra == RaOf(prefix))
  }

  /** An advertisement sent after `e.after` exchanges carries what they left. */
  predicate SentFrom(host: Host, mode: Mode, outcomes: seq<Outcome>, e: Sent) {
    && e.after <= |outcomes| && (mode.DhcpMode? ==> e.after >= 1)
    && e.ra == RaOf(Published(host, Initial(mode), outcomes[..e.after]))
  }

  predicate SentInv(host: Host, mode: Mode, outcomes: seq<Outcome>, sent: seq<Sent>) {
    && (forall i :: 0 <= i < |sent| ==> SentFrom(host, mode, outcomes, sent[i]))
    && (forall i, j :: 0 <= i < j < |sent| ==> sent[i].after <= sent[j].after)
  }

  predicate BeforeRa(pc: MainPc) {
    pc.MainStart? || pc.MainSpin? || pc.MainStartRa?
  }

  predicate StartInv(mode: Mode, main: MainPc, dhcp: DhcpPc, ra: AdvPc, rs: AdvPc, outcomes: seq<Outcome>) {
    && (main.MainStart? ==> dhcp.DhcpNotStarted? && outcomes == [])
    && (main.MainSpin? ==> !dhcp.DhcpNotStarted?)
    && (BeforeRa(main) ==> ra.AdvNotStarted? && rs.AdvNotStarted?)
    && (main.MainStartRs? ==> !ra.AdvNotStarted? && rs.AdvNotStarted?)
    && (main.MainWait? ==> !ra.AdvNotStarted? && !rs.AdvNotStarted?)
    && !ra.AdvReceive? && !rs.AdvSleep?
    && (mode.StaticMode? ==> dhcp.DhcpNotStarted? && outcomes == [] && !main.MainSpin?)
    && (mode.DhcpMode? && outcomes == [] ==> main.MainStart? || main.MainSpin?)
  }

  predicate Inv(host: Host, s: State) {
    && HolderInv(s.holder, s.dhcp, s.ra, s.rs)
    && PrefixInv(host, Initial(s.mode), s.prefix, s.dhcp, s.outcomes)
    && AdvInv(s.prefix, s.ra) && AdvInv(s.prefix, s.rs)
    && SentInv(host, s.mode, s.outcomes, s.sent)
    && StartInv(s.mode, s.main, s.dhcp, s.ra, s.rs, s.outcomes)
  }

  /** Before the first exchange ends the record is still all zero. */
  lemma GateClosed(host: Host, prefix: Lease, dhcp: DhcpPc)
    requires PrefixInv(host, Initial(DhcpMode), prefix, dhcp, [])
    ensures prefix.prefixLength == 0
  {
  }

  lemma SentExtended(host: Host, mode: Mode, outcomes: seq<Outcome>, outcome: Outcome, sent: seq<Sent>)
    requires SentInv(host, mode, outcomes, sent)
    ensures SentInv(host, mode, outcomes + [outcome], sent)
  {
    hide Published, Initial;
    var longer := outcomes + [outcome];
    forall i | 0 <= i < |sent|
      ensures SentFrom(host, mode, longer, sent[i])
    {
      assert SentFrom(host, mode, outcomes, sent[i]);
      assert longer[..sent[i].after] == outcomes[..sent[i].after];
    }
  }

  lemma SentAppended(host: Host, mode: Mode, outcomes: seq<Outcome>, sent: seq<Sent>, ra: Ra)
    requires SentInv(host, mode, outcomes, sent) && (mode.DhcpMode? ==> outcomes != [])
    requires ra == RaOf(Published(host, Initial(mode), outcomes))
    ensures SentInv(host, mode, outcomes, sent + [Sent(ra, |outcomes|)])
  {
    hide Published, Initial;
    assert outcomes[..|outcomes|] == outcomes;
    var longer := sent + [Sent(ra, |outcomes|)];
    forall i | 0 <= i < |longer|
      ensures SentFrom(host, mode, outcomes, longer[i])
    {
      if i < |sent| {
        assert SentFrom(host, mode, outcomes, sent[i]);
      }
    }
  }

  lemma MainStepInv(host: Host, s: State)
    requires Inv(host, s)
    ensures Inv(host, MainStep(s)) && MainStep(s).mode == s.mode
  {
    hide SentInv, StartInv, HolderInv, Published, Initial, Raw, SwapPreferred, SwapValid, Copied, FromImage;
    MainStepOrder(host, s);
    MainStepThreads(s);
  }

  /** `main` starts the other threads outside their critical sections. */
  lemma MainStepThreads(s: State)
    requires HolderInv(s.holder, s.dhcp, s.ra, s.rs)
    requires StartInv(s.mode, s.main, s.dhcp, s.ra, s.rs, s.outcomes)
    ensures var t := MainStep(s);
            && HolderInv(t.holder, t.dhcp, t.ra, t.rs)
            && (t.dhcp == s.dhcp || (s.dhcp.DhcpNotStarted? && t.dhcp.DhcpSetup?))
            && (t.ra == s.ra || t.ra.AdvSetup?) && (t.rs == s.rs || t.rs.AdvSetup?)
  {
  }

  lemma MainStepOrder(host: Host, s: State)
    requires PrefixInv(host, Initial(s.mode), s.prefix, s.dhcp, s.outcomes)
    requires StartInv(s.mode, s.main, s.dhcp, s.ra, s.rs, s.outcomes)
    ensures var t := MainStep(s);
            StartInv(t.mode, t.main, t.dhcp, t.ra, t.rs, t.outcomes)
  {
    hide PrefixInv;
    if s.mode.DhcpMode? && s.outcomes == [] {
      GateClosed(host, s.prefix, s.dhcp);
    }
  }

  lemma DhcpStepPrefix(host: Host, s: State)
    requires HolderInv(s.holder, s.dhcp, s.ra, s.rs) && PrefixInv(host, Initial(s.mode), s.prefix, s.dhcp, s.outcomes)
    ensures var t := DhcpStep(host, s);
            && PrefixInv(host, Initial(s.mode), t.prefix, t.dhcp, s.outcomes)
            && HolderInv(t.holder, t.dhcp, s.ra, s.rs)
            && (t.prefix != s.prefix ==> DhcpCritical(s.dhcp))
  {
    hide Initial, Received, SwapPreferred, SwapValid, FromImage, AdvCritical;
  }

  /** Only the DHCP thread writes the record, and only holding the mutex. */
  lemma DhcpStepFrame(host: Host, s: State)
    ensures var t := DhcpStep(host, s);
            && t.mode == s.mode && t.ra == s.ra && t.rs == s.rs && t.main == s.main
            && t.outcomes == s.outcomes && t.sent == s.sent
            && (t.dhcp.DhcpNotStarted? <==> s.dhcp.DhcpNotStarted?)
  {
    hide SwapPreferred, SwapValid;
  }

  lemma DhcpStepInv(host: Host, s: State)
    requires Inv(host, s)
    ensures Inv(host, DhcpStep(host, s)) && DhcpStep(host, s).mode == s.mode
  {
    hide DhcpStep, SentInv, AdvInv, Initial, PrefixInv;
    DhcpStepPrefix(host, s);
    DhcpStepFrame(host, s);
    if DhcpCritical(s.dhcp) {
      AdvIdle(s.ra);
      AdvIdle(s.rs);
    }
  }

  lemma ControlStepInv(host: Host, s: State, e: Event)
    requires Inv(host, s)
    ensures Inv(host, ControlStep(s, e)) && ControlStep(s, e).mode == s.mode
  {
    hide SentInv, AdvInv, StartInv, HolderInv, PrefixInv, ControlStep, Initial;
    ControlShared(host, s, e);
    ControlOrder(s, e);
    ControlHolder(s, e);
  }

  lemma ControlShared(host: Host, s: State, e: Event)
    requires PrefixInv(host, Initial(s.mode), s.prefix, s.dhcp, s.outcomes) && AdvInv(s.prefix, s.ra) && AdvInv(s.prefix, s.rs)
    ensures var t := ControlStep(s, e);
            && t.prefix == s.prefix && t.outcomes == s.outcomes && t.sent == s.sent && t.mode == s.mode && t.holder == s.holder
            && PrefixInv(host, Initial(t.mode), t.prefix, t.dhcp, t.outcomes) && AdvInv(t.prefix, t.ra) && AdvInv(t.prefix, t.rs)
  {
    hide Initial, Published, Raw, SwapPreferred, SwapValid, Copied, FromImage;
  }

  lemma ControlOrder(s: State, e: Event)
    requires StartInv(s.mode, s.main, s.dhcp, s.ra, s.rs, s.outcomes)
    ensures var t := ControlStep(s, e);
            StartInv(t.mode, t.main, t.dhcp, t.ra, t.rs, t.outcomes)
  {
  }

  lemma ControlHolder(s: State, e: Event)
    requires HolderInv(s.holder, s.dhcp, s.ra, s.rs)
    ensures var t := ControlStep(s, e);
            HolderInv(t.holder, t.dhcp, t.ra, t.rs)
  {
  }

  lemma SendStepInv(host: Host, s: State, accepted: bool)
    requires Inv(host, s)
    ensures Inv(host, SendStep(s, accepted)) && SendStep(s, accepted).mode == s.mode
  {
    hide SentInv, AdvInv, Initial, Published, FromImage;
    if s.dhcp.DhcpSend? && !accepted {
      assert (s.outcomes + [SendFailed])[..|s.outcomes|] == s.outcomes;
      SentExtended(host, s.mode, s.outcomes, SendFailed, s.sent);
    }
  }

  lemma ReceiveStepInv(host: Host, s: State, image: Image)
    requires Inv(host, s)
    ensures Inv(host, ReceiveStep(s, image)) && ReceiveStep(s, image).mode == s.mode
  {
    hide SentInv, AdvInv, Initial, Published, FromImage;
    if s.dhcp.DhcpAwait? {
      SentExtended(host, s.mode, s.outcomes, Delivered(image), s.sent);
    }
  }

  lemma CopyStepInv(host: Host, s: State, f: Field)
    requires Inv(host, s)
    ensures Inv(host, CopyStep(host, s, f)) && CopyStep(host, s, f).mode == s.mode
  {
    hide SentInv, AdvInv, Initial, Published, FromImage;
    if s.dhcp.DhcpCopy? && f in s.dhcp.todo {
      AdvIdle(s.ra);
      AdvIdle(s.rs);
      CopiedAll(CopyField(s.prefix, FromImage(host, s.dhcp.image), f), FromImage(host, s.dhcp.image), s.dhcp.todo - {f});
    }
  }

  /** A thread outside its critical section remembers nothing of the record. */
  lemma AdvIdle(pc: AdvPc)
    requires !AdvCritical(pc)
    ensures forall l: Lease :: AdvInv(l, pc)
  {
  }

  lemma CopiedAll(l: Lease, source: Lease, todo: set<Field>)
    requires Copied(l, source, todo)
    ensures todo == {} ==> l == source
  {
  }

  lemma AdvMove(pc: AdvPc, me: ThreadId, cancelled: bool, holder: Option<ThreadId>, prefix: Lease)
    requires me != DhcpThread && AdvInv(prefix, pc) && (holder == Some(me) <==> AdvCritical(pc))
    ensures var next, holder' := AdvNext(pc, me, cancelled, holder == None, prefix), AdvHolder(pc, me, holder);
            && AdvInv(prefix, next) && (holder' == Some(me) <==> AdvCritical(next))
            && (forall other :: other != me ==> (holder' == Some(other) <==> holder == Some(other)))
            && (next.AdvNotStarted? <==> pc.AdvNotStarted?)
            && (me == RaThread && !pc.AdvReceive? ==> !next.AdvReceive?) && (me == RsThread && !pc.AdvSleep? ==> !next.AdvSleep?)
  {
  }

  lemma AdvSentInv(host: Host, mode: Mode, outcomes: seq<Outcome>, sent: seq<Sent>, pc: AdvPc, prefix: Lease)
    requires SentInv(host, mode, outcomes, sent) && (mode.DhcpMode? && pc.AdvSend? ==> outcomes != [])
    requires AdvInv(prefix, pc) && (pc.AdvSend? ==> prefix == Published(host, Initial(mode), outcomes))
    ensures SentInv(host, mode, outcomes, AdvSent(pc, |outcomes|, sent))
  {
    hide SentInv, Published, Initial;
    if pc.AdvSend? {
      SentAppended(host, mode, outcomes, sent, pc.ra);
    }
  }

  lemma RaStepInv(host: Host, s: State)
    requires Inv(host, s)
    ensures Inv(host, RaStep(s)) && RaStep(s).mode == s.mode
  {
    hide SentInv, AdvInv, AdvNext, AdvHolder, AdvSent, Initial, Published, Raw, SwapPreferred, SwapValid, Copied, FromImage;
    AdvMove(s.ra, RaThread, s.cancelRa, s.holder, s.prefix);
    AdvSentInv(host, s.mode, s.outcomes, s.sent, s.ra, s.prefix);
  }

  lemma RsStepInv(host: Host, s: State)
    requires Inv(host, s)
    ensures Inv(host, RsStep(s)) && RsStep(s).mode == s.mode
  {
    hide SentInv, AdvInv, AdvNext, AdvHolder, AdvSent, Initial, Published, Raw, SwapPreferred, SwapValid, Copied, FromImage;
    AdvMove(s.rs, RsThread, s.cancelRs, s.holder, s.prefix);
    AdvSentInv(host, s.mode, s.outcomes, s.sent, s.rs, s.prefix);
  }

  /** Every step of every thread keeps the invariant. */
  lemma StepInv(host: Host, s: State, e: Event)
    requires Inv(host, s)
    ensures Inv(host, Step(host, s, e)) && Step(host, s, e).mode == s.mode
  {
    hide Published, Initial, HolderInv, PrefixInv, AdvInv, SentInv, StartInv,
         MainStep, DhcpStep, RaStep, RsStep, CopyStep, ControlStep, SendStep, ReceiveStep;
    match e
    case MainRuns => MainStepInv(host, s);
    case DhcpRuns => DhcpStepInv(host, s);
    case DhcpSends(accepted) => SendStepInv(host, s, accepted);
    case DhcpReceives(image) => ReceiveStepInv(host, s, image);
    case DhcpCopies(field) => CopyStepInv(host, s, field);
    case RaRuns => RaStepInv(host, s);
    case RsRuns => RsStepInv(host, s);
    case Signal =>
    case _ => ControlStepInv(host, s, e);
  }

  lemma InitInv(host: Host, mode: Mode)
    ensures Inv(host, Init(mode)) && Init(mode).mode == mode
  {
  }

  lemma {:induction false} InvHolds(host: Host, mode: Mode, events: seq<Event>)
    ensures Inv(host, Exec(host, Init(mode), events)) && Exec(host, Init(mode), events).mode == mode
  {
    hide Inv, Step, Init;
    InitInv(host, mode);
    if events != [] {
      InvHolds(host, mode, events[..|events| - 1]);
      StepInv(host, Exec(host, Init(mode), events[..|events| - 1]), events[|events| - 1]);
    }
  }

  // ---- safety over every run ----

  /** At most one thread is inside a critical section, and it holds the mutex. */
  lemma MutualExclusion(host: Host, mode: Mode, events: seq<Event>)
    ensures var s := Exec(host, Init(mode), events);
            && (DhcpCritical(s.dhcp) ==> s.holder == Some(DhcpThread) && !AdvCritical(s.ra) && !AdvCritical(s.rs))
            && (AdvCritical(s.ra) ==> s.holder == Some(RaThread) && !DhcpCritical(s.dhcp) && !AdvCritical(s.rs))
            && (AdvCritical(s.rs) ==> s.holder == Some(RsThread) && !DhcpCritical(s.dhcp) && !AdvCritical(s.ra))
  {
    hide Exec, Init, PrefixInv, SentInv, AdvInv, StartInv, DhcpCritical, AdvCritical;
    InvHolds(host, mode, events);
  }

  /** Whenever the DHCP thread does not hold the mutex the record is what the
      completed exchanges left, never a partly processed one. */
  lemma RecordComplete(host: Host, mode: Mode, events: seq<Event>)
    ensures var s := Exec(host, Init(mode), events);
            s.holder != Some(DhcpThread) ==> s.prefix == Published(host, Initial(mode), s.outcomes)
  {
    hide Exec, Init, Initial, Published, SentInv, AdvInv, StartInv;
    InvHolds(host, mode, events);
  }

  /** Every advertisement ever sent carries exactly what some number of complete
      exchanges left, later ones never an earlier record; in DHCP mode at least
      one exchange has ended by then, although `main` reads the record unlocked,
      and in static mode it is the record configured. */
  lemma EveryRaComplete(host: Host, mode: Mode, events: seq<Event>)
    ensures var s := Exec(host, Init(mode), events);
            && (forall i :: 0 <= i < |s.sent| ==> SentFrom(host, mode, s.outcomes, s.sent[i]))
            && (forall i, j :: 0 <= i < j < |s.sent| ==> s.sent[i].after <= s.sent[j].after)
            && (mode.StaticMode? ==>
                  forall i :: 0 <= i < |s.sent| ==> s.sent[i].ra == Ra(mode.prefix, mode.prefixLength, 48000, 24000))
  {
    hide Exec, Init, PrefixInv, HolderInv, AdvInv;
    InvHolds(host, mode, events);
  }

  // ---- what the exchanges leave ----

  /** The reply behind the last exchange that delivered one. */
  function LastImage(outcomes: seq<Outcome>): Option<Image> {
    if outcomes == [] then None
    else
      match outcomes[|outcomes| - 1]
      case Delivered(image) => Some(image)
      case SendFailed => LastImage(outcomes[..|outcomes| - 1])
  }

  /** How many exchanges have failed since. */
  function FailuresSince(outcomes: seq<Outcome>): nat {
    if outcomes == [] || outcomes[|outcomes| - 1].Delivered? then 0
    else 1 + FailuresSince(outcomes[..|outcomes| - 1])
  }

  /** A little-endian host reverses the bytes of a lifetime once more for every
      failed exchange. */
  function Flipped(host: Host, failures: nat, v: uint32): uint32 {
    if host.LittleEndian? && failures % 2 == 1 then Swap32(v) else v
  }

  lemma FlippedOnce(host: Host, failures: nat, v: uint32)
    ensures HToBe32(host, Flipped(host, failures, v)) == Flipped(host, failures + 1, v)
  {
    Swap32Twice(v);
  }

  function LeaseAfter(host: Host, image: Image, failures: nat): Lease {
    Lease(Flipped(host, failures, FromBe32(image, 0)), Flipped(host, failures, FromBe32(image, 4)), 64, image[9..25])
  }

  /** The record after any sequence of exchanges, in closed form: the last
      reply's prefix with length 64 and its lifetimes as numbers, reversed if an
      odd number of exchanges has failed since; and before any reply, the initial
      record, with length 64 as soon as one exchange has failed. */
  lemma {:induction false} PublishedClosed(host: Host, initial: Lease, outcomes: seq<Outcome>)
    ensures var k := FailuresSince(outcomes);
            Published(host, initial, outcomes) ==
            match LastImage(outcomes)
            case Some(image) => LeaseAfter(host, image, k)
            case None =>
              if outcomes == [] then initial
              else Lease(Flipped(host, k, initial.preferred), Flipped(host, k, initial.valid), 64, initial.prefix)
  {
    hide Flipped, Swap32, Load32, FromBe32, HToBe32;
    if outcomes != [] {
      var n := |outcomes| - 1;
      PublishedClosed(host, initial, outcomes[..n]);
      match outcomes[n]
      case Delivered(image) =>
        LoadConverted32(host, image, 0);
        LoadConverted32(host, image, 4);
        FlippedNever(host, FromBe32(image, 0));
        FlippedNever(host, FromBe32(image, 4));
      case SendFailed =>
        var l :=
          match LastImage(outcomes[..n])
          case Some(image) => FlipSource(image)
          case None => (initial.preferred, initial.valid);
        FlippedNever(host, l.0);
        FlippedNever(host, l.1);
        FlippedOnce(host, FailuresSince(outcomes[..n]), l.0);
        FlippedOnce(host, FailuresSince(outcomes[..n]), l.1);
    }
  }

  function FlipSource(image: Image): (uint32, uint32) {
    (FromBe32(image, 0), FromBe32(image, 4))
  }

  lemma FlippedNever(host: Host, v: uint32)
    ensures Flipped(host, 0, v) == v
  {
  }

  // ---- what the advertisements carry ----

  /** The advertisement a reply calls for: its prefix with length 64 and its
      lifetimes as numbers. */
  function RaFor(image: Image): Ra {
    Ra(image[9..25], 64, FromBe32(image, 4), FromBe32(image, 0))
  }

  predicate Palindromic(v: uint32) {
    Swap32(v) == v
  }

  /** In DHCP mode an advertisement is the one its reply calls for if and only if
      the host is big-endian, an even number of exchanges has failed since that
      reply, or reversing the bytes changes neither lifetime.  The prefix and its
      length are right in any case.  One sent before the first reply carries the
      zero prefix: a failed exchange opens the gate as well. */
  lemma RaFaithful(host: Host, events: seq<Event>, i: nat)
    requires i < |Exec(host, Init(DhcpMode), events).sent|
    ensures var s := Exec(host, Init(DhcpMode), events);
            var e := s.sent[i];
            1 <= e.after <= |s.outcomes| &&
            match LastImage(s.outcomes[..e.after])
            case None => e.ra == Ra([0, 0, 0, 0, 0, 0, 0, 0, 0, 0, 0, 0, 0, 0, 0, 0], 64, 0, 0)
            case Some(image) =>
              && e.ra.prefix == image[9..25] && e.ra.prefixLength == 64
              && (e.ra == RaFor(image) <==>
                  || host.BigEndian?
                  || FailuresSince(s.outcomes[..e.after]) % 2 == 0
                  || (Palindromic(FromBe32(image, 0)) && Palindromic(FromBe32(image, 4))))
  {
    hide Exec, Init, Published, Swap32, FromBe32, FailuresSince, LastImage;
    EveryRaComplete(host, DhcpMode, events);
    InvHolds(host, DhcpMode, events);
    var s := Exec(host, Init(DhcpMode), events);
    assert SentFrom(host, DhcpMode, s.outcomes, s.sent[i]);
    PublishedClosed(host, ZERO_LEASE, s.outcomes[..s.sent[i].after]);
    SwapZero();
  }

  lemma SwapZero()
    ensures Swap32(0) == 0
  {
  }

  lemma {:induction false} DeliveredStays(outcomes: seq<Outcome>, n: nat)
    requires 1 <= n <= |outcomes| && outcomes[0].Delivered?
    ensures LastImage(outcomes[..n]).Some?
  {
    var os := outcomes[..n];
    if os[n - 1].SendFailed? {
      assert os[..n - 1] == outcomes[..n - 1];
      DeliveredStays(outcomes, n - 1);
    }
  }

  /** If the first exchange delivers a reply, every advertisement stems from one. */
  lemma FirstReplyGates(host: Host, events: seq<Event>, i: nat)
    requires var s := Exec(host, Init(DhcpMode), events);
             i < |s.sent| && s.outcomes != [] && s.outcomes[0].Delivered?
    ensures var s := Exec(host, Init(DhcpMode), events);
            s.sent[i].after <= |s.outcomes| && LastImage(s.outcomes[..s.sent[i].after]).Some?
  {
    hide Exec, Init, LastImage;
    RaFaithful(host, events, i);
    var s := Exec(host, Init(DhcpMode), events);
    DeliveredStays(s.outcomes, s.sent[i].after);
  }

  // ---- the closed socket ----

  /** An exchange closes the socket when it ends, and nothing opens it again. */
  predicate SocketOpen(s: State) {
    s.outcomes == []
  }

  /** In this run the system accepts a send only on an open socket. */
  predicate ClosedRefuses(host: Host, s: State, events: seq<Event>) {
    forall i :: 0 <= i < |events| && events[i] == DhcpSends(true) ==>
      var before := Exec(host, s, events[..i]);
      before.dhcp.DhcpSend? ==> SocketOpen(before)
  }

  /** Only the first exchange can deliver; while a reply is awaited none has
      ended. */
  predicate OneExchange(dhcp: DhcpPc, outcomes: seq<Outcome>) {
    && (forall i :: 1 <= i < |outcomes| ==> outcomes[i] == SendFailed)
    && (dhcp.DhcpAwait? ==> outcomes == [])
  }

  lemma ExchangeStep(host: Host, s: State, e: Event)
    requires OneExchange(s.dhcp, s.outcomes)
    requires e == DhcpSends(true) && s.dhcp.DhcpSend? ==> SocketOpen(s)
    ensures var t := Step(host, s, e);
            OneExchange(t.dhcp, t.outcomes)
  {
    hide OneExchange, Step;
    if e.DhcpSends? || e.DhcpReceives? {
      ExchangeEnds(host, s, e);
    } else {
      ExchangeFrame(host, s, e);
      ExchangeSame(s, Step(host, s, e));
    }
  }

  lemma ExchangeEnds(host: Host, s: State, e: Event)
    requires OneExchange(s.dhcp, s.outcomes) && (e.DhcpSends? || e.DhcpReceives?)
    requires e == DhcpSends(true) && s.dhcp.DhcpSend? ==> SocketOpen(s)
    ensures var t := Step(host, s, e);
            OneExchange(t.dhcp, t.outcomes)
  {
  }

  /** No other step ends an exchange or starts a wait. */
  lemma ExchangeFrame(host: Host, s: State, e: Event)
    requires !e.DhcpSends? && !e.DhcpReceives?
    ensures var t := Step(host, s, e);
            t.outcomes == s.outcomes && (t.dhcp.DhcpAwait? ==> s.dhcp.DhcpAwait?)
  {
    hide DhcpStep, CopyField, FromImage;
    DhcpStepFrame(host, s);
    NoWaitStarts(host, s);
  }

  lemma NoWaitStarts(host: Host, s: State)
    ensures DhcpStep(host, s).dhcp.DhcpAwait? ==> s.dhcp.DhcpAwait?
  {
    hide SwapPreferred, SwapValid;
  }

  lemma ExchangeSame(s: State, t: State)
    requires OneExchange(s.dhcp, s.outcomes)
    requires t.outcomes == s.outcomes && (t.dhcp.DhcpAwait? ==> s.dhcp.DhcpAwait?)
    ensures OneExchange(t.dhcp, t.outcomes)
  {
  }

  lemma {:induction false} OneExchangeHolds(host: Host, events: seq<Event>)
    requires ClosedRefuses(host, Init(DhcpMode), events)
    ensures var s := Exec(host, Init(DhcpMode), events);
            OneExchange(s.dhcp, s.outcomes)
  {
    hide Step, OneExchange, Init;
    if events == [] {
      NoExchange();
    } else {
      var n := |events| - 1;
      RefusesBefore(host, Init(DhcpMode), events, n);
      OneExchangeHolds(host, events[..n]);
      ExchangeStep(host, Exec(host, Init(DhcpMode), events[..n]), events[n]);
    }
  }

  lemma NoExchange()
    ensures OneExchange(Init(DhcpMode).dhcp, Init(DhcpMode).outcomes)
  {
  }

  lemma RefusesBefore(host: Host, s: State, events: seq<Event>, n: nat)
    requires ClosedRefuses(host, s, events) && n <= |events|
    ensures ClosedRefuses(host, s, events[..n])
  {
    hide Exec;
    forall i | 0 <= i < n && events[..n][i] == DhcpSends(true)
      ensures var before := Exec(host, s, events[..n][..i]);
              before.dhcp.DhcpSend? ==> SocketOpen(before)
    {
      assert events[..n][..i] == events[..i];
    }
  }

  lemma {:induction false} FailuresAfterFirst(outcomes: seq<Outcome>)
    requires outcomes != [] && forall i :: 1 <= i < |outcomes| ==> outcomes[i] == SendFailed
    ensures LastImage(outcomes) == if outcomes[0].Delivered? then Some(outcomes[0].image) else None
    ensures FailuresSince(outcomes) == |outcomes| - if outcomes[0].Delivered? then 1 else 0
  {
    var n := |outcomes| - 1;
    if n > 0 {
      FailuresAfterFirst(outcomes[..n]);
    } else if outcomes[0].SendFailed? {
      assert outcomes[..0] == [];
    }
  }

  /** What the relay ever advertises, sharpened: everything stems from the first
      exchange.  If it failed, every advertisement carries the zero prefix.  If it
      delivered a reply, an advertisement is the one this reply calls for if and
      only if the host is big-endian, it was sent after an odd number of
      exchanges, or both lifetimes are palindromic: on a little-endian host every
      other DHCP round reverses them. */
  lemma ParityOfExchanges(host: Host, events: seq<Event>, i: nat)
    requires ClosedRefuses(host, Init(DhcpMode), events)
    requires i < |Exec(host, Init(DhcpMode), events).sent|
    ensures var s := Exec(host, Init(DhcpMode), events);
            var e := s.sent[i];
            1 <= e.after <= |s.outcomes| &&
            match s.outcomes[0]
            case SendFailed => e.ra == Ra([0, 0, 0, 0, 0, 0, 0, 0, 0, 0, 0, 0, 0, 0, 0, 0], 64, 0, 0)
            case Delivered(image) =>
              && e.ra.prefix == image[9..25] && e.ra.prefixLength == 64
              && (e.ra == RaFor(image) <==>
                  || host.BigEndian?
                  || e.after % 2 == 1
                  || (Palindromic(FromBe32(image, 0)) && Palindromic(FromBe32(image, 4))))
  {
    hide Exec, Init, Palindromic, FromBe32, FailuresSince, LastImage, ClosedRefuses;
    OneExchangeHolds(host, events);
    RaFaithful(host, events, i);
    var s := Exec(host, Init(DhcpMode), events);
    FailuresAfterFirst(s.outcomes[..s.sent[i].after]);
  }

  /** A lost reply means that nothing was and nothing will be advertised: the
      wait is that of the first exchange, and `main` has not passed its gate. */
  lemma LostReplySilences(host: Host, events: seq<Event>, more: seq<Event>)
    requires ClosedRefuses(host, Init(DhcpMode), events) && Exec(host, Init(DhcpMode), events).dhcp == DhcpAwait
    requires forall i :: 0 <= i < |more| ==> !more[i].DhcpReceives?
    ensures var t := Exec(host, Init(DhcpMode), events + more);
            t.dhcp == DhcpAwait && t.outcomes == [] && t.sent == [] && t.main.MainSpin?
  {
    hide Exec, Init, Inv, ClosedRefuses;
    OneExchangeHolds(host, events);
    InvHolds(host, DhcpMode, events);
    var s := Exec(host, Init(DhcpMode), events);
    LostReplyStarves(host, s, more);
    ExecSplit(host, Init(DhcpMode), events, more);
    InvHolds(host, DhcpMode, events + more);
    BeforeFirstExchange(host, Exec(host, Init(DhcpMode), events + more));
  }

  lemma BeforeFirstExchange(host: Host, s: State)
    requires Inv(host, s) && s.mode == DhcpMode && s.outcomes == [] && s.dhcp == DhcpAwait
    ensures s.sent == [] && s.main.MainSpin?
  {
    hide HolderInv, AdvInv, PrefixInv, Published, Initial;
    if s.sent != [] {
      NotSentBefore(host, s.sent[0]);
      assert false;
    }
  }

  lemma NotSentBefore(host: Host, e: Sent)
    ensures !SentFrom(host, DhcpMode, [], e)
  {
  }

  const FINISH: seq<Event> := [DhcpRuns, DhcpRuns, DhcpRuns, DhcpRuns]

  /** What every exchange ends with, whether it delivered a reply or failed. */
  lemma FinishRound(host: Host, s: State)
    requires s.main != MainExit && s.dhcp == DhcpSwapPreferred
    ensures Exec(host, s, FINISH) == s.(prefix := Processed(host, s.prefix), dhcp := DhcpSleep, holder := None)
  {
    hide Exec, Step, SwapPreferred, SwapValid;
    var l1, l2 := SwapPreferred(host, s.prefix), SwapValid(host, SwapPreferred(host, s.prefix));
    var s1 := s.(prefix := l1, dhcp := DhcpSwapValid);
    var s2 := s1.(prefix := l2, dhcp := DhcpSetLength);
    var s3 := s2.(prefix := l2.(prefixLength := 64), dhcp := DhcpUnlock);
    var s4 := s3.(holder := None, dhcp := DhcpSleep);
    OneStep(host, s, DhcpRuns, s1);
    OneStep(host, s1, DhcpRuns, s2);
    OneStep(host, s2, DhcpRuns, s3);
    OneStep(host, s3, DhcpRuns, s4);
    Steps(host, [s, s1, s2, s3, s4], FINISH, 4);
    assert FINISH[..4] == FINISH;
  }

  const FAILURE: seq<Event> := [DhcpRuns, DhcpSends(false)]

  /** A failed exchange processes the record once more. */
  lemma FailedRound(host: Host, s: State)
    requires s.main != MainExit && s.dhcp == DhcpLock && s.holder == None
    ensures Exec(host, s, FAILURE + FINISH) ==
            s.(prefix := Processed(host, s.prefix), dhcp := DhcpSleep, outcomes := s.outcomes + [SendFailed])
  {
    hide Exec, Step, Processed;
    var s1 := s.(holder := Some(DhcpThread), dhcp := DhcpSend);
    var s2 := s1.(outcomes := s.outcomes + [SendFailed], dhcp := DhcpSwapPreferred);
    OneStep(host, s, DhcpRuns, s1);
    OneStep(host, s1, DhcpSends(false), s2);
    Steps(host, [s, s1, s2], FAILURE, 2);
    assert FAILURE[..2] == FAILURE;
    FinishRound(host, s2);
    ExecSplit(host, s, FAILURE, FINISH);
  }

  const COPY: seq<Event> :=
    [DhcpCopies(PreferredField), DhcpCopies(ValidField), DhcpCopies(LengthField), DhcpCopies(PrefixField)]

  lemma CopyRound(host: Host, s: State, image: Image)
    requires s.main != MainExit && s.dhcp == DhcpCopy(image, ALL_FIELDS)
    ensures Exec(host, s, COPY) == s.(prefix := FromImage(host, image), dhcp := DhcpSwapPreferred)
  {
    hide Exec, Step, FromImage;
    var l := FromImage(host, image);
    var todo1, todo2, todo3 := ALL_FIELDS - {PreferredField}, {LengthField, PrefixField}, {PrefixField};
    assert todo1 - {ValidField} == todo2 && todo2 - {LengthField} == todo3;
    assert ValidField in todo1 && LengthField in todo2 && PrefixField in todo3;
    var s1 := s.(prefix := s.prefix.(preferred := l.preferred), dhcp := DhcpCopy(image, todo1));
    var s2 := s1.(prefix := s1.prefix.(valid := l.valid), dhcp := DhcpCopy(image, todo2));
    var s3 := s2.(prefix := s2.prefix.(prefixLength := l.prefixLength), dhcp := DhcpCopy(image, todo3));
    var s4 := s3.(prefix := l, dhcp := DhcpSwapPreferred);
    assert todo3 - {PrefixField} == {};
    OneStep(host, s, COPY[0], s1);
    OneStep(host, s1, COPY[1], s2);
    OneStep(host, s2, COPY[2], s3);
    OneStep(host, s3, COPY[3], s4);
    Steps(host, [s, s1, s2, s3, s4], COPY, 4);
    assert COPY[..4] == COPY;
  }

  function Delivery(image: Image): seq<Event> {
    [DhcpRuns, DhcpSends(true), DhcpReceives(image)]
  }

  /** A delivered reply replaces the record by the processed reply. */
  lemma DeliveredRound(host: Host, s: State, image: Image)
    requires s.main != MainExit && s.dhcp == DhcpLock && s.holder == None
    ensures Exec(host, s, Delivery(image) + COPY + FINISH) ==
            s.(prefix := Processed(host, FromImage(host, image)), dhcp := DhcpSleep, outcomes := s.outcomes + [Delivered(image)])
  {
    hide Exec, Step, Processed, FromImage;
    var s1 := s.(holder := Some(DhcpThread), dhcp := DhcpSend);
    var s2 := s1.(dhcp := DhcpAwait);
    var s3 := s2.(outcomes := s.outcomes + [Delivered(image)], dhcp := DhcpCopy(image, ALL_FIELDS));
    OneStep(host, s, DhcpRuns, s1);
    OneStep(host, s1, DhcpSends(true), s2);
    OneStep(host, s2, DhcpReceives(image), s3);
    Steps(host, [s, s1, s2, s3], Delivery(image), 3);
    assert Delivery(image)[..3] == Delivery(image);
    CopyRound(host, s3, image);
    ExecSplit(host, s, Delivery(image), COPY);
    FinishRound(host, s3.(prefix := FromImage(host, image), dhcp := DhcpSwapPreferred));
    ExecSplit(host, s, Delivery(image) + COPY, FINISH);
  }

  const ADVERT_ROUND: seq<Event> := [RaRuns, RaRuns, RaRuns, RaRuns, RaRuns, RaRuns, RaRuns]

  /** A round of the RA thread sends the record as it is. */
  lemma AdvertRound(host: Host, s: State)
    requires s.main != MainExit && s.ra == AdvSetup && !s.cancelRa && s.holder == None
    ensures Exec(host, s, ADVERT_ROUND) == s.(ra := AdvSleep, sent := s.sent + [Sent(RaOf(s.prefix), |s.outcomes|)])
  {
    hide Exec, Step;
    var s0 := s.(ra := AdvCheck);
    var s1 := s.(ra := AdvLock);
    var s2 := s1.(ra := AdvReadPrefix, holder := Some(RaThread));
    var s3 := s2.(ra := AdvReadRest(s.prefix.prefix));
    var s4 := s3.(ra := AdvSend(RaOf(s.prefix)));
    var s5 := s4.(ra := AdvUnlock, sent := s.sent + [Sent(RaOf(s.prefix), |s.outcomes|)]);
    var s6 := s5.(ra := AdvSleep, holder := None);
    OneStep(host, s, RaRuns, s0);
    OneStep(host, s0, RaRuns, s1);
    OneStep(host, s1, RaRuns, s2);
    OneStep(host, s2, RaRuns, s3);
    OneStep(host, s3, RaRuns, s4);
    OneStep(host, s4, RaRuns, s5);
    OneStep(host, s5, RaRuns, s6);
    Steps(host, [s, s0, s1, s2, s3, s4, s5, s6], ADVERT_ROUND, 7);
    assert ADVERT_ROUND[..7] == ADVERT_ROUND;
  }

  lemma OneStep(host: Host, s: State, e: Event, t: State)
    requires s.main != MainExit
    requires match e
             case MainRuns => t == MainStep(s)
             case DhcpRuns => t == DhcpStep(host, s)
             case DhcpSends(accepted) => t == SendStep(s, accepted)
             case DhcpReceives(image) => t == ReceiveStep(s, image)
             case DhcpCopies(field) => t == CopyStep(host, s, field)
             case RaRuns => t == RaStep(s)
             case RsRuns => false
             case Signal => false
             case _ => t == ControlStep(s, e)
    ensures t == Step(host, s, e)
  {
  }

  lemma {:induction false} Steps(host: Host, states: seq<State>, events: seq<Event>, n: nat)
    requires n < |states| && n <= |events|
    requires forall i :: 0 <= i < n ==> states[i + 1] == Step(host, states[i], events[i])
    ensures Exec(host, states[0], events[..n]) == states[n]
  {
    hide Step;
    if n > 0 {
      Steps(host, states, events, n - 1);
      assert events[..n][..n - 1] == events[..n - 1];
      assert states[n - 1 + 1] == Step(host, states[n - 1], events[n - 1]);
    }
  }

  /** The run behind the other case: the first exchange fails, the record's
      length becomes 64 all the same, and the zero prefix goes out. */
  lemma FailureOpensGate(host: Host)
    ensures exists events ::
              var s := Exec(host, Init(DhcpMode), events);
              s.outcomes == [SendFailed] && s.sent == [Sent(Ra([0, 0, 0, 0, 0, 0, 0, 0, 0, 0, 0, 0, 0, 0, 0, 0], 64, 0, 0), 1)]
  {
    hide Exec, Step, Swap32, Processed;
    var s0 := Init(DhcpMode);
    var s2 := s0.(dhcp := DhcpLock, main := MainSpin);
    var s3 := s2.(prefix := Processed(host, ZERO_LEASE), dhcp := DhcpSleep, outcomes := [] + [SendFailed]);
    var s5 := s3.(ra := AdvSetup, main := MainStartRs);
    StartRound(host);
    FailedRound(host, s2);
    ProcessedZero(host);
    GateRound(host, s3);
    AdvertRound(host, s5);
    ExecSplit(host, s0, START, FAILURE + FINISH);
    ExecSplit(host, s0, START + (FAILURE + FINISH), GATE);
    ExecSplit(host, s0, START + (FAILURE + FINISH) + GATE, ADVERT_ROUND);
    var s := Exec(host, s0, START + (FAILURE + FINISH) + GATE + ADVERT_ROUND);
    assert s.sent == [] + [Sent(RaOf(s5.prefix), 1)];
  }

  lemma ProcessedZero(host: Host)
    ensures Processed(host, ZERO_LEASE) == Lease(0, 0, 64, ZERO_LEASE.prefix)
  {
    hide Swap32;
    SwapZero();
  }

  const START: seq<Event> := [MainRuns, DhcpRuns, DhcpRuns]

  lemma StartRound(host: Host)
    ensures Exec(host, Init(DhcpMode), START) == Init(DhcpMode).(dhcp := DhcpLock, main := MainSpin)
  {
    hide Exec, Step;
    var s0 := Init(DhcpMode);
    var s1 := s0.(dhcp := DhcpSetup, main := MainSpin);
    var s2 := s1.(dhcp := DhcpCheck);
    var s3 := s2.(dhcp := DhcpLock);
    OneStep(host, s0, MainRuns, s1);
    OneStep(host, s1, DhcpRuns, s2);
    OneStep(host, s2, DhcpRuns, s3);
    Steps(host, [s0, s1, s2, s3], START, 3);
    assert START[..3] == START;
  }

  const GATE: seq<Event> := [MainRuns, MainRuns]

  lemma GateRound(host: Host, s: State)
    requires s.main == MainSpin && s.prefix.prefixLength != 0
    ensures Exec(host, s, GATE) == s.(ra := AdvSetup, main := MainStartRs)
  {
    hide Exec, Step;
    var s1 := s.(main := MainStartRa);
    var s2 := s1.(ra := AdvSetup, main := MainStartRs);
    OneStep(host, s, MainRuns, s1);
    OneStep(host, s1, MainRuns, s2);
    Steps(host, [s, s1, s2], GATE, 2);
    assert GATE[..2] == GATE;
  }

  const AGAIN: seq<Event> := [DhcpWakes, DhcpRuns]

  /** The run behind the odd case: for every reply, one failed exchange after it
      makes a little-endian host advertise the lifetimes with their bytes
      reversed, which differ unless both are palindromic.  No send is accepted on
      a closed socket in this run. */
  lemma FailureReversesLifetimes(host: Host, image: Image)
    ensures var ra := Ra(image[9..25], 64, Flipped(host, 1, FromBe32(image, 4)), Flipped(host, 1, FromBe32(image, 0)));
            && (exists events ::
                  var s := Exec(host, Init(DhcpMode), events);
                  ClosedRefuses(host, Init(DhcpMode), events)
                  && s.outcomes == [Delivered(image), SendFailed] && s.sent == [Sent(ra, 2)])
            && (host.LittleEndian? && !(Palindromic(FromBe32(image, 0)) && Palindromic(FromBe32(image, 4)))
                ==> ra != RaFor(image))
  {
    hide Exec, Step, Swap32, FromBe32, Processed, FromImage, LastImage, FailuresSince, ClosedRefuses;
    var s0 := Init(DhcpMode);
    var l1 := Processed(host, FromImage(host, image));
    var s2 := s0.(dhcp := DhcpLock, main := MainSpin);
    var s3 := s2.(prefix := l1, dhcp := DhcpSleep, outcomes := [] + [Delivered(image)]);
    var s4 := s3.(dhcp := DhcpLock);
    var s5 := s4.(prefix := Processed(host, l1), dhcp := DhcpSleep, outcomes := s4.outcomes + [SendFailed]);
    var s7 := s5.(ra := AdvSetup, main := MainStartRs);
    StartRound(host);
    DeliveredRound(host, s2, image);
    AgainRound(host, s3);
    FailedRound(host, s4);
    ProcessedLength(host, l1);
    GateRound(host, s5);
    AdvertRound(host, s7);
    var first, second := Delivery(image) + COPY + FINISH, FAILURE + FINISH;
    SixRounds(host, s0, START, first, AGAIN, second, GATE, ADVERT_ROUND);
    var events := START + first + AGAIN + second + GATE + ADVERT_ROUND;
    assert Exec(host, s0, events).sent == [] + [Sent(RaOf(s7.prefix), 2)];
    var rest := COPY + FINISH + AGAIN + second + GATE + ADVERT_ROUND;
    OneSend(host, image, rest);
    assert events == START + Delivery(image) + rest;
    DeliveredThenFailed(host, image);
  }

  lemma SixRounds(host: Host, s: State, a: seq<Event>, b: seq<Event>, c: seq<Event>, d: seq<Event>, e: seq<Event>, f: seq<Event>)
    ensures Exec(host, s, a + b + c + d + e + f) ==
            Exec(host, Exec(host, Exec(host, Exec(host, Exec(host, Exec(host, s, a), b), c), d), e), f)
  {
    hide Exec;
    ExecSplit(host, s, a, b);
    ExecSplit(host, s, a + b, c);
    ExecSplit(host, s, a + b + c, d);
    ExecSplit(host, s, a + b + c + d, e);
    ExecSplit(host, s, a + b + c + d + e, f);
  }

  lemma OneSend(host: Host, image: Image, rest: seq<Event>)
    requires forall i :: 0 <= i < |rest| ==> rest[i] != DhcpSends(true)
    ensures ClosedRefuses(host, Init(DhcpMode), START + Delivery(image) + rest)
  {
    hide Exec, Step;
    var s0 := Init(DhcpMode);
    var events := START + Delivery(image) + rest;
    StartRound(host);
    var s1 := Exec(host, s0, START);
    ExecSplit(host, s0, START, [DhcpRuns]);
    OneStep(host, s1, DhcpRuns, DhcpStep(host, s1));
    ExecNone(host, s1);
    ExecCons(host, s1, DhcpRuns, []);
    assert [DhcpRuns] + [] == [DhcpRuns];
    DhcpStepFrame(host, s1);
    assert events[..4] == START + [DhcpRuns];
    forall i | 0 <= i < |events| && events[i] == DhcpSends(true)
      ensures i == 4
    {
    }
    ExecNone(host, Step(host, s1, DhcpRuns));
  }

  lemma AgainRound(host: Host, s: State)
    requires s.main != MainExit && s.dhcp == DhcpSleep && !s.cancelDhcp
    ensures Exec(host, s, AGAIN) == s.(dhcp := DhcpLock)
  {
    hide Exec, Step;
    OneStep(host, s, DhcpWakes, s.(dhcp := DhcpCheck));
    OneStep(host, s.(dhcp := DhcpCheck), DhcpRuns, s.(dhcp := DhcpLock));
    Steps(host, [s, s.(dhcp := DhcpCheck), s.(dhcp := DhcpLock)], AGAIN, 2);
    assert AGAIN[..2] == AGAIN;
  }

  lemma ProcessedLength(host: Host, l: Lease)
    ensures Processed(host, l).prefixLength == 64
  {
  }

  lemma DeliveredThenFailed(host: Host, image: Image)
    ensures Processed(host, Processed(host, FromImage(host, image))) == LeaseAfter(host, image, 1)
  {
    hide Swap32, Load32, FromBe32, HToBe32;
    LoadConverted32(host, image, 0);
    LoadConverted32(host, image, 4);
    FlippedNever(host, FromBe32(image, 0));
    FlippedNever(host, FromBe32(image, 4));
    FlippedOnce(host, 0, FromBe32(image, 0));
    FlippedOnce(host, 0, FromBe32(image, 4));
  }

  /** Ordinary lifetimes are not palindromic: 3600 and 7200 seconds. */
  lemma OrdinaryLifetimes()
    ensures !Palindromic(3600) && !Palindromic(7200)
  {
    assert Swap16(3600) == 0x100E && Swap16(7200) == 0x201C && Swap16(0) == 0;
  }

  lemma {:induction false} ExecSplit(host: Host, s: State, a: seq<Event>, b: seq<Event>)
    ensures Exec(host, s, a + b) == Exec(host, Exec(host, s, a), b)
  {
    hide Step;
    if b == [] {
      assert a + b == a;
    } else {
      assert (a + b)[..|a + b| - 1] == a + b[..|b| - 1];
      ExecSplit(host, s, a, b[..|b| - 1]);
    }
  }

  lemma ExecCons(host: Host, s: State, e: Event, rest: seq<Event>)
    ensures Exec(host, s, [e] + rest) == Exec(host, Step(host, s, e), rest)
  {
    hide Step;
    ExecSplit(host, s, [e], rest);
    assert [e][..0] == [];
    assert Exec(host, s, [e]) == Step(host, Exec(host, s, [e][..0]), e);
  }

  // ---- every advertising thread can send ----

  /** The RA or the RS thread's program counter. */
  function Pc(s: State, t: ThreadId): AdvPc
    requires t != DhcpThread
  {
    if t == RaThread then s.ra else s.rs
  }

  function Cancelled(s: State, t: ThreadId): bool {
    match t
    case DhcpThread => s.cancelDhcp
    case RaThread => s.cancelRa
    case RsThread => s.cancelRs
  }

  /** A thread's own move, and what it waits for outside its critical section:
      the end of its sleep or a solicitation. */
  function Runs(t: ThreadId): Event {
    match t
    case DhcpThread => DhcpRuns
    case RaThread => RaRuns
    case RsThread => RsRuns
  }

  function Turn(t: ThreadId): Event {
    match t
    case DhcpThread => DhcpWakes
    case RaThread => RaWakes
    case RsThread => RsReceives
  }

  predicate ByThread(t: ThreadId, events: seq<Event>) {
    forall i :: 0 <= i < |events| ==> events[i] == Runs(t) || events[i] == Turn(t)
  }

  /** What the thread's own events leave alone. */
  predicate SameElse(s: State, u: State, t: ThreadId) {
    && u.main == s.main && u.prefix == s.prefix && u.outcomes == s.outcomes && u.mode == s.mode
    && Cancelled(u, t) == Cancelled(s, t)
  }

  lemma ThreadRuns(host: Host, s: State, t: ThreadId)
    requires s.main != MainExit && t != DhcpThread
    ensures var u := Step(host, s, Runs(t));
            && SameElse(s, u, t)
            && Pc(u, t) == AdvNext(Pc(s, t), t, Cancelled(s, t), s.holder == None, s.prefix)
            && u.holder == AdvHolder(Pc(s, t), t, s.holder) && u.sent == AdvSent(Pc(s, t), |s.outcomes|, s.sent)
  {
    hide AdvNext, AdvHolder, AdvSent;
  }

  lemma ThreadTurn(host: Host, s: State, t: ThreadId)
    requires s.main != MainExit && t != DhcpThread
    ensures var u := Step(host, s, Turn(t));
            && SameElse(s, u, t) && u.holder == s.holder && u.sent == s.sent
            && Pc(u, t) == match Pc(s, t)
                           case AdvSleep => if t == RaThread then AdvCheck else AdvSleep
                           case AdvReceive => if t == RsThread then AdvLock else AdvReceive
                           case pc => pc
  {
  }

  /** A thread that will not send any more. */
  predicate Silent(pc: AdvPc, cancelled: bool) {
    pc.AdvNotStarted? || pc.AdvDone? || (cancelled && (pc.AdvSetup? || pc.AdvCheck? || pc.AdvUnlock? || pc.AdvSleep?))
  }

  /** Own events until it has sent. */
  function StepsToSend(pc: AdvPc): nat {
    match pc
    case AdvSend(_) => 1
    case AdvReadRest(_) => 2
    case AdvReadPrefix => 3
    case AdvLock => 4
    case AdvReceive => 5
    case AdvCheck => 6
    case AdvUnlock => 8
    case _ => 7
  }

  function SendEvent(pc: AdvPc, t: ThreadId): Event {
    if pc.AdvSleep? || pc.AdvReceive? then Turn(t) else Runs(t)
  }

  /** The thread holds the mutex in its critical section, and otherwise nobody
      does. */
  predicate Alone(s: State, t: ThreadId)
    requires t != DhcpThread
  {
    && s.main != MainExit && AdvInv(s.prefix, Pc(s, t))
    && s.holder == (if AdvCritical(Pc(s, t)) then Some(t) else None)
    && (t == RaThread ==> !s.ra.AdvReceive?) && (t == RsThread ==> !s.rs.AdvSleep?)
  }

  lemma SendMoves(host: Host, s: State, t: ThreadId)
    requires t != DhcpThread && Alone(s, t) && !Silent(Pc(s, t), Cancelled(s, t)) && !Pc(s, t).AdvSend?
    ensures var u := Step(host, s, SendEvent(Pc(s, t), t));
            && Alone(u, t) && !Silent(Pc(u, t), Cancelled(u, t)) && StepsToSend(Pc(u, t)) < StepsToSend(Pc(s, t))
            && SameElse(s, u, t) && u.sent == s.sent
  {
    hide Step;
    ThreadRuns(host, s, t);
    ThreadTurn(host, s, t);
  }

  lemma {:induction false} SendReached(host: Host, s: State, t: ThreadId)
    requires t != DhcpThread && Alone(s, t) && !Silent(Pc(s, t), Cancelled(s, t))
    ensures exists events ::
              ByThread(t, events) && Exec(host, s, events).sent == s.sent + [Sent(RaOf(s.prefix), |s.outcomes|)]
    decreases StepsToSend(Pc(s, t))
  {
    hide Step, Exec, Silent, Alone, StepsToSend;
    var e := SendEvent(Pc(s, t), t);
    var u := Step(host, s, e);
    if Pc(s, t).AdvSend? {
      LastMove(host, s, t);
      ExecNone(host, u);
      ExecCons(host, s, e, []);
      assert ByThread(t, [e] + []);
    } else {
      SendMoves(host, s, t);
      SendReached(host, u, t);
      var rest :| ByThread(t, rest) && Exec(host, u, rest).sent == u.sent + [Sent(RaOf(u.prefix), |u.outcomes|)];
      ExecCons(host, s, e, rest);
      assert ByThread(t, [e] + rest);
    }
  }

  lemma LastMove(host: Host, s: State, t: ThreadId)
    requires t != DhcpThread && Alone(s, t) && Pc(s, t).AdvSend?
    ensures SendEvent(Pc(s, t), t) == Runs(t)
    ensures Step(host, s, Runs(t)).sent == s.sent + [Sent(RaOf(s.prefix), |s.outcomes|)]
  {
    hide Step;
    ThreadRuns(host, s, t);
  }

  lemma {:induction false} StaysSilent(host: Host, s: State, t: ThreadId, events: seq<Event>)
    requires t != DhcpThread && s.main != MainExit && Silent(Pc(s, t), Cancelled(s, t)) && ByThread(t, events)
    ensures var u := Exec(host, s, events);
            u.main != MainExit && Silent(Pc(u, t), Cancelled(u, t)) && u.sent == s.sent
  {
    hide Step;
    if events != [] {
      var n := |events| - 1;
      StaysSilent(host, s, t, events[..n]);
      ThreadRuns(host, Exec(host, s, events[..n]), t);
      ThreadTurn(host, Exec(host, s, events[..n]), t);
    }
  }

  lemma AloneWhenFree(host: Host, s: State, t: ThreadId)
    requires Inv(host, s) && t != DhcpThread && s.main != MainExit && s.holder == None
    ensures Alone(s, t)
  {
    hide SentInv, PrefixInv;
  }

  /** From every reachable state of a running process with the mutex free, the RA
      or RS thread can send the record by its own events if and only if it has
      been started, has not ended and is not about to end because it is
      cancelled. */
  lemma CanSendExact(host: Host, s: State, t: ThreadId)
    requires Inv(host, s) && t != DhcpThread && s.main != MainExit && s.holder == None
    ensures (exists events ::
               ByThread(t, events) && Exec(host, s, events).sent == s.sent + [Sent(RaOf(s.prefix), |s.outcomes|)])
            <==> !Silent(Pc(s, t), Cancelled(s, t))
  {
    hide Inv, Step, Exec, Silent, Alone;
    AloneWhenFree(host, s, t);
    if Silent(Pc(s, t), Cancelled(s, t)) {
      forall events | ByThread(t, events)
        ensures Exec(host, s, events).sent != s.sent + [Sent(RaOf(s.prefix), |s.outcomes|)]
      {
        StaysSilent(host, s, t, events);
      }
    } else {
      SendReached(host, s, t);
    }
  }

  /** An advertising thread ends only when it is cancelled. */
  predicate EndsCancelled(s: State) {
    (s.ra.AdvDone? ==> s.cancelRa) && (s.rs.AdvDone? ==> s.cancelRs)
  }

  lemma EndStep(host: Host, s: State, e: Event)
    requires EndsCancelled(s) && !e.RsAborts?
    ensures EndsCancelled(Step(host, s, e))
  {
    hide DhcpStep, CopyField, FromImage, AdvHolder, AdvSent;
    DhcpStepFrame(host, s);
    DhcpStepFlags(host, s);
  }

  lemma DhcpStepFlags(host: Host, s: State)
    ensures var t := DhcpStep(host, s); t.cancelDhcp == s.cancelDhcp && t.cancelRa == s.cancelRa && t.cancelRs == s.cancelRs
  {
    hide SwapPreferred, SwapValid;
  }

  lemma {:induction false} EndsHold(host: Host, mode: Mode, events: seq<Event>)
    requires forall i :: 0 <= i < |events| ==> !events[i].RsAborts?
    ensures EndsCancelled(Exec(host, Init(mode), events))
  {
    hide Step, EndsCancelled;
    if events == [] {
      assert EndsCancelled(Init(mode)) by {
        NobodyEnded(mode);
      }
    } else {
      EndsHold(host, mode, events[..|events| - 1]);
      EndStep(host, Exec(host, Init(mode), events[..|events| - 1]), events[|events| - 1]);
    }
  }

  lemma NobodyEnded(mode: Mode)
    ensures EndsCancelled(Init(mode))
  {
  }

  /** Once `main` waits, both advertising threads have been started, and while the
      mutex is free either of them, unless it is cancelled or failed to set up its
      sockets, can send the record as it is. */
  lemma BothThreadsServe(host: Host, mode: Mode, events: seq<Event>, t: ThreadId)
    requires var s := Exec(host, Init(mode), events);
             s.main == MainWait && s.holder == None && t != DhcpThread && !Cancelled(s, t)
    requires forall i :: 0 <= i < |events| ==> !events[i].RsAborts?
    ensures var s := Exec(host, Init(mode), events);
            && !s.ra.AdvNotStarted? && !s.rs.AdvNotStarted?
            && exists more ::
                 ByThread(t, more) && Exec(host, s, more).sent == s.sent + [Sent(RaOf(s.prefix), |s.outcomes|)]
  {
    hide Exec, Init, Inv;
    var s := Exec(host, Init(mode), events);
    InvHolds(host, mode, events);
    EndsHold(host, mode, events);
    WaitStarted(host, s);
    CanSendExact(host, s, t);
  }

  lemma WaitStarted(host: Host, s: State)
    requires Inv(host, s) && s.main == MainWait
    ensures !s.ra.AdvNotStarted? && !s.rs.AdvNotStarted?
  {
    hide SentInv, PrefixInv, AdvInv, HolderInv;
  }

  const MAIN_ON: seq<Event> := [MainRuns, MainRuns, MainRuns]

  /** In static mode three steps of `main` start both threads with the configured
      record, without any exchange. */
  lemma StaticServes(host: Host, prefix: Address, length: byte)
    ensures var s := Exec(host, Init(StaticMode(prefix, length)), MAIN_ON);
            && s.main == MainWait && s.ra == AdvSetup && s.rs == AdvSetup && s.holder == None && s.outcomes == []
            && RaOf(s.prefix) == Ra(prefix, length, 48000, 24000)
            && !s.cancelRa && !s.cancelRs
  {
    hide Exec, Step;
    var s0 := Init(StaticMode(prefix, length));
    var s1 := s0.(main := MainStartRa);
    var s2 := s1.(ra := AdvSetup, main := MainStartRs);
    var s3 := s2.(rs := AdvSetup, main := MainWait);
    OneStep(host, s0, MainRuns, s1);
    OneStep(host, s1, MainRuns, s2);
    OneStep(host, s2, MainRuns, s3);
    Steps(host, [s0, s1, s2, s3], MAIN_ON, 3);
    assert MAIN_ON[..3] == MAIN_ON;
  }

  /** In DHCP mode `main` passes its gate, whenever the length is set, in three
      steps that start both threads. */
  lemma GateOpens(host: Host, s: State)
    requires s.main == MainSpin
    ensures Exec(host, s, MAIN_ON) ==
            if s.prefix.prefixLength == 0 then s else s.(ra := AdvSetup, rs := AdvSetup, main := MainWait)
  {
    hide Exec, Step;
    if s.prefix.prefixLength == 0 {
      OneStep(host, s, MainRuns, s);
      Steps(host, [s, s, s, s], MAIN_ON, 3);
    } else {
      var s1 := s.(main := MainStartRa);
      var s2 := s1.(ra := AdvSetup, main := MainStartRs);
      var s3 := s2.(rs := AdvSetup, main := MainWait);
      OneStep(host, s, MainRuns, s1);
      OneStep(host, s1, MainRuns, s2);
      OneStep(host, s2, MainRuns, s3);
      Steps(host, [s, s1, s2, s3], MAIN_ON, 3);
    }
    assert MAIN_ON[..3] == MAIN_ON;
  }

  /** What a failed set-up leads to while `main` waits: of the RA thread, the end of
      the process at the next look at the flags; of the RS thread, its end at once
      or only that thread's. */
  lemma SetupFailures(host: Host, s: State)
    requires s.main == MainWait
    ensures s.ra.AdvSetup? ==> Step(host, Step(host, s, RaAborts), MainRuns).main == MainExit
    ensures s.rs.AdvSetup? ==> Step(host, s, RsAborts(true)).main == MainExit
    ensures s.rs.AdvSetup? ==> Step(host, s, RsAborts(false)) == s.(rs := AdvDone)
    ensures s.dhcp.DhcpSetup? ==> Step(host, s, DhcpAborts(true)) == s.(dhcp := DhcpDone, cancelDhcp := true)
    ensures s.dhcp.DhcpSetup? ==> Step(host, s, DhcpAborts(false)) == s.(dhcp := DhcpDone)
    ensures Step(host, s, MainRuns).main == MainExit <==> s.cancelRa || s.cancelRs
  {
  }

  // ---- one action a turn ----

  predicate SendsNow(s: State, t: ThreadId, e: Event) {
    t != DhcpThread && s.main != MainExit && e == Runs(t) && Pc(s, t).AdvSend?
  }

  /** The thread's sleep ends, or a solicitation is taken. */
  predicate TurnsNow(s: State, t: ThreadId, e: Event) {
    && s.main != MainExit && e == Turn(t)
    && match t
       case DhcpThread => s.dhcp.DhcpSleep?
       case RaThread => s.ra.AdvSleep?
       case RsThread => s.rs.AdvReceive?
  }

  /** How many advertisements a thread sends in a run. */
  function Sends(host: Host, s: State, t: ThreadId, events: seq<Event>): nat {
    if events == [] then 0
    else
      var n := |events| - 1;
      Sends(host, s, t, events[..n]) + if SendsNow(Exec(host, s, events[..n]), t, events[n]) then 1 else 0
  }

  function Turns(host: Host, s: State, t: ThreadId, events: seq<Event>): nat {
    if events == [] then 0
    else
      var n := |events| - 1;
      Turns(host, s, t, events[..n]) + if TurnsNow(Exec(host, s, events[..n]), t, events[n]) then 1 else 0
  }

  function One(b: bool): nat {
    if b then 1 else 0
  }

  predicate AfterExchange(pc: DhcpPc) {
    pc.DhcpCopy? || pc.DhcpSwapPreferred? || pc.DhcpSwapValid? || pc.DhcpSetLength? || pc.DhcpUnlock? || pc.DhcpSleep?
  }

  predicate AfterSend(pc: AdvPc) {
    pc.AdvUnlock? || pc.AdvSleep?
  }

  predicate BeforeSend(pc: AdvPc) {
    pc.AdvLock? || pc.AdvReadPrefix? || pc.AdvReadRest? || pc.AdvSend?
  }

  lemma ExchangeCadence(host: Host, s: State, e: Event)
    requires StartInv(s.mode, s.main, s.dhcp, s.ra, s.rs, s.outcomes)
    ensures var u := Step(host, s, e);
            |u.outcomes| + One(AfterExchange(s.dhcp)) == |s.outcomes| + One(AfterExchange(u.dhcp)) + One(TurnsNow(s, DhcpThread, e))
  {
    hide Step, AfterExchange;
    if e.DhcpRuns? {
      RunsCadence(host, s);
    } else if e.RaRuns? || e.RsRuns? || e.Signal? {
      DhcpUntouched(host, s, e);
    } else {
      OtherCadence(host, s, e);
    }
  }

  lemma RunsCadence(host: Host, s: State)
    ensures var u := Step(host, s, DhcpRuns); u.outcomes == s.outcomes && (AfterExchange(u.dhcp) <==> AfterExchange(s.dhcp))
  {
    hide DhcpStep;
    DhcpStepFrame(host, s);
    DhcpStepCadence(host, s);
  }

  lemma DhcpUntouched(host: Host, s: State, e: Event)
    requires e.RaRuns? || e.RsRuns? || e.Signal?
    ensures var u := Step(host, s, e); u.outcomes == s.outcomes && u.dhcp == s.dhcp
  {
    hide AdvNext, AdvHolder, AdvSent;
  }

  lemma OtherCadence(host: Host, s: State, e: Event)
    requires StartInv(s.mode, s.main, s.dhcp, s.ra, s.rs, s.outcomes) && !e.DhcpRuns? && !e.RaRuns? && !e.RsRuns? && !e.Signal?
    ensures var u := Step(host, s, e);
            |u.outcomes| + One(AfterExchange(s.dhcp)) == |s.outcomes| + One(AfterExchange(u.dhcp)) + One(TurnsNow(s, DhcpThread, e))
  {
    hide DhcpStep, RaStep, RsStep, CopyField, FromImage;
  }

  lemma DhcpStepCadence(host: Host, s: State)
    ensures AfterExchange(DhcpStep(host, s).dhcp) <==> AfterExchange(s.dhcp)
  {
    hide SwapPreferred, SwapValid;
  }

  lemma AdvertCadence(host: Host, s: State, e: Event)
    requires StartInv(s.mode, s.main, s.dhcp, s.ra, s.rs, s.outcomes)
    ensures var u := Step(host, s, e);
            && One(AfterSend(u.ra)) + One(TurnsNow(s, RaThread, e)) == One(AfterSend(s.ra)) + One(SendsNow(s, RaThread, e))
            && One(BeforeSend(u.rs)) + One(SendsNow(s, RsThread, e)) == One(BeforeSend(s.rs)) + One(TurnsNow(s, RsThread, e))
            && |u.sent| == |s.sent| + One(SendsNow(s, RaThread, e)) + One(SendsNow(s, RsThread, e))
  {
    hide Step, AfterSend, BeforeSend, AdvNext;
    if s.main != MainExit && e == RaRuns {
      RunCadence(host, s, RaThread);
    } else if s.main != MainExit && e == RsRuns {
      RunCadence(host, s, RsThread);
    } else {
      ControlCadence(host, s, e);
    }
  }

  lemma RunCadence(host: Host, s: State, t: ThreadId)
    requires s.main != MainExit && t != DhcpThread && !s.ra.AdvReceive? && !s.rs.AdvSleep?
    ensures var u, sends := Step(host, s, Runs(t)), One(Pc(s, t).AdvSend?);
            && |u.sent| == |s.sent| + sends
            && One(AfterSend(u.ra)) == One(AfterSend(s.ra)) + (if t == RaThread then sends else 0)
            && One(BeforeSend(u.rs)) + (if t == RsThread then sends else 0) == One(BeforeSend(s.rs))
  {
    hide AdvHolder;
  }

  lemma ControlCadence(host: Host, s: State, e: Event)
    requires StartInv(s.mode, s.main, s.dhcp, s.ra, s.rs, s.outcomes) && (s.main == MainExit || (e != RaRuns && e != RsRuns))
    ensures var u := Step(host, s, e);
            && u.sent == s.sent
            && One(AfterSend(u.ra)) + One(TurnsNow(s, RaThread, e)) == One(AfterSend(s.ra))
            && One(BeforeSend(u.rs)) == One(BeforeSend(s.rs)) + One(TurnsNow(s, RsThread, e))
  {
    hide Step, StartInv, AfterSend, BeforeSend;
    match e
    case MainRuns => StartCadence(host, s);
    case RaWakes => TurnCadence(host, s, e);
    case RaAborts => TurnCadence(host, s, e);
    case RsReceives => TurnCadence(host, s, e);
    case RsAborts(_) => TurnCadence(host, s, e);
    case _ => AdvUntouched(host, s, e);
  }

  lemma StartCadence(host: Host, s: State)
    requires StartInv(s.mode, s.main, s.dhcp, s.ra, s.rs, s.outcomes)
    ensures var u := Step(host, s, MainRuns);
            && u.sent == s.sent
            && (AfterSend(u.ra) <==> AfterSend(s.ra)) && (BeforeSend(u.rs) <==> BeforeSend(s.rs))
  {
  }

  lemma TurnCadence(host: Host, s: State, e: Event)
    requires e.RaWakes? || e.RaAborts? || e.RsReceives? || e.RsAborts?
    ensures var u := Step(host, s, e);
            && u.sent == s.sent
            && One(AfterSend(u.ra)) + One(TurnsNow(s, RaThread, e)) == One(AfterSend(s.ra))
            && One(BeforeSend(u.rs)) == One(BeforeSend(s.rs)) + One(TurnsNow(s, RsThread, e))
  {
  }

  lemma AdvUntouched(host: Host, s: State, e: Event)
    requires s.main == MainExit
             || !(e.MainRuns? || e.RaRuns? || e.RsRuns? || e.RaWakes? || e.RaAborts? || e.RsReceives? || e.RsAborts?)
    ensures var u := Step(host, s, e); u.sent == s.sent && u.ra == s.ra && u.rs == s.rs
  {
    hide DhcpStep, CopyField, FromImage;
    DhcpStepFrame(host, s);
  }

  /** How often each thread acts, exactly: the DHCP thread exchanges once, and once
      more after every sleep; the RA thread sends once, and once more after every
      sleep; the RS thread sends one advertisement for every solicitation it has
      taken, except the one it is answering.  Together these are all the
      advertisements there are. */
  lemma {:induction false} Cadence(host: Host, mode: Mode, events: seq<Event>)
    ensures var s0, s := Init(mode), Exec(host, Init(mode), events);
            && |s.outcomes| == Turns(host, s0, DhcpThread, events) + One(AfterExchange(s.dhcp))
            && Sends(host, s0, RaThread, events) == Turns(host, s0, RaThread, events) + One(AfterSend(s.ra))
            && Sends(host, s0, RsThread, events) + One(BeforeSend(s.rs)) == Turns(host, s0, RsThread, events)
            && |s.sent| == Sends(host, s0, RaThread, events) + Sends(host, s0, RsThread, events)
  {
    hide Inv, StartInv, Step, AfterExchange, AfterSend, BeforeSend, SendsNow, TurnsNow;
    var s0 := Init(mode);
    if events == [] {
      NothingYet(mode);
    } else {
      var n := |events| - 1;
      var s := Exec(host, s0, events[..n]);
      Cadence(host, mode, events[..n]);
      InvHolds(host, mode, events[..n]);
      StartOrder(host, s);
      ExchangeCadence(host, s, events[n]);
      AdvertCadence(host, s, events[n]);
    }
  }

  lemma NothingYet(mode: Mode)
    ensures var s := Init(mode);
            && !AfterExchange(s.dhcp) && !AfterSend(s.ra) && !BeforeSend(s.rs) && s.outcomes == [] && s.sent == []
  {
  }

  lemma StartOrder(host: Host, s: State)
    requires Inv(host, s)
    ensures StartInv(s.mode, s.main, s.dhcp, s.ra, s.rs, s.outcomes)
  {
    hide SentInv, PrefixInv, AdvInv, HolderInv, StartInv;
  }

  // ---- after a signal ----

  /** Moves a cancelled advertising thread can still make. */
  function MovesLeft(pc: AdvPc): nat {
    match pc
    case AdvReceive => 8
    case AdvLock => 7
    case AdvReadPrefix => 6
    case AdvReadRest(_) => 5
    case AdvSend(_) => 4
    case AdvUnlock => 3
    case AdvNotStarted => 3
    case AdvSetup => 2
    case AdvSleep => 2
    case AdvCheck => 1
    case AdvDone => 0
  }

  function FieldsLeft(todo: set<Field>): nat {
    One(PreferredField in todo) + One(ValidField in todo) + One(LengthField in todo) + One(PrefixField in todo)
  }

  function DhcpMovesLeft(pc: DhcpPc): nat {
    match pc
    case DhcpLock => 13
    case DhcpSend => 12
    case DhcpAwait => 11
    case DhcpCopy(_, todo) => 6 + FieldsLeft(todo)
    case DhcpSwapPreferred => 6
    case DhcpSwapValid => 5
    case DhcpSetLength => 4
    case DhcpUnlock => 3
    case DhcpSleep => 2
    case DhcpNotStarted => 3
    case DhcpSetup => 2
    case DhcpCheck => 1
    case DhcpDone => 0
  }

  function MainMovesLeft(pc: MainPc): nat {
    match pc
    case MainStart => 5
    case MainSpin => 4
    case MainStartRa => 3
    case MainStartRs => 2
    case MainWait => 1
    case MainExit => 0
  }

  function AllMovesLeft(s: State): (n: nat)
    ensures n <= 34
  {
    MovesLeft(s.ra) + MovesLeft(s.rs) + DhcpMovesLeft(s.dhcp) + MainMovesLeft(s.main)
  }

  predicate Signalled(s: State) {
    s.cancelDhcp && s.cancelRa && s.cancelRs
  }

  /** Every step of a signalled process that changes anything brings it closer to
      its end. */
  lemma WindsDown(host: Host, s: State, e: Event)
    requires StartInv(s.mode, s.main, s.dhcp, s.ra, s.rs, s.outcomes) && Signalled(s)
    ensures var u := Step(host, s, e);
            Signalled(u) && (u != s ==> AllMovesLeft(u) < AllMovesLeft(s))
  {
    hide DhcpStep, RaStep, RsStep, CopyStep, ControlStep, MainStep, StartInv, AllMovesLeft;
    match e
    case MainRuns => MainWinds(s);
    case DhcpRuns => DhcpWinds(host, s);
    case DhcpSends(accepted) => ExchangeWinds(s, accepted);
    case DhcpReceives(image) => ReplyWinds(s, image);
    case DhcpCopies(f) => CopyWinds(host, s, f);
    case RaRuns => AdvWinds(s);
    case RsRuns => AdvWinds(s);
    case Signal =>
    case _ => ControlWinds(s, e);
  }

  lemma MainWinds(s: State)
    requires StartInv(s.mode, s.main, s.dhcp, s.ra, s.rs, s.outcomes) && Signalled(s)
    ensures var u := MainStep(s); Signalled(u) && (u != s ==> AllMovesLeft(u) < AllMovesLeft(s))
  {
  }

  lemma DhcpWinds(host: Host, s: State)
    requires Signalled(s)
    ensures var u := DhcpStep(host, s); Signalled(u) && (u != s ==> AllMovesLeft(u) < AllMovesLeft(s))
  {
    hide SwapPreferred, SwapValid;
  }

  lemma ExchangeWinds(s: State, accepted: bool)
    requires Signalled(s)
    ensures var u := SendStep(s, accepted); Signalled(u) && (u != s ==> AllMovesLeft(u) < AllMovesLeft(s))
  {
  }

  lemma ReplyWinds(s: State, image: Image)
    requires Signalled(s)
    ensures var u := ReceiveStep(s, image); Signalled(u) && (u != s ==> AllMovesLeft(u) < AllMovesLeft(s))
  {
  }

  lemma CopyWinds(host: Host, s: State, f: Field)
    requires Signalled(s)
    ensures var u := CopyStep(host, s, f); Signalled(u) && (u != s ==> AllMovesLeft(u) < AllMovesLeft(s))
  {
    hide CopyField, FromImage;
  }

  lemma AdvWinds(s: State)
    requires Signalled(s)
    ensures var u := RaStep(s); Signalled(u) && (u != s ==> AllMovesLeft(u) < AllMovesLeft(s))
    ensures var u := RsStep(s); Signalled(u) && (u != s ==> AllMovesLeft(u) < AllMovesLeft(s))
  {
    MoveWinds(s.ra, RaThread, s.holder, s.prefix, s.sent, |s.outcomes|);
    MoveWinds(s.rs, RsThread, s.holder, s.prefix, s.sent, |s.outcomes|);
    hide AdvNext, AdvHolder, AdvSent, MovesLeft;
  }

  lemma MoveWinds(pc: AdvPc, me: ThreadId, holder: Option<ThreadId>, prefix: Lease, sent: seq<Sent>, after: nat)
    ensures var next := AdvNext(pc, me, true, holder == None, prefix);
            || MovesLeft(next) < MovesLeft(pc)
            || (next == pc && AdvHolder(pc, me, holder) == holder && AdvSent(pc, after, sent) == sent)
  {
  }

  lemma ControlWinds(s: State, e: Event)
    requires Signalled(s)
    ensures var u := ControlStep(s, e); Signalled(u) && (u != s ==> AllMovesLeft(u) < AllMovesLeft(s))
  {
  }

  /** A cancelled advertising thread between its check and its next send. */
  predicate MaySend(pc: AdvPc) {
    pc.AdvReceive? || BeforeSend(pc)
  }

  predicate MayExchange(pc: DhcpPc) {
    pc.DhcpLock? || pc.DhcpSend? || pc.DhcpAwait?
  }

  lemma CancelledStep(host: Host, s: State, e: Event)
    requires StartInv(s.mode, s.main, s.dhcp, s.ra, s.rs, s.outcomes) && Signalled(s)
    ensures var u := Step(host, s, e);
            && One(MaySend(u.ra)) + One(SendsNow(s, RaThread, e)) <= One(MaySend(s.ra))
            && One(MaySend(u.rs)) + One(SendsNow(s, RsThread, e)) <= One(MaySend(s.rs))
            && |u.outcomes| + One(MayExchange(u.dhcp)) <= |s.outcomes| + One(MayExchange(s.dhcp))
  {
    hide Step, MaySend, MayExchange;
    CancelledAdv(host, s, e);
    CancelledDhcp(host, s, e);
  }

  lemma CancelledAdv(host: Host, s: State, e: Event)
    requires StartInv(s.mode, s.main, s.dhcp, s.ra, s.rs, s.outcomes) && Signalled(s)
    ensures var u := Step(host, s, e);
            && One(MaySend(u.ra)) + One(SendsNow(s, RaThread, e)) <= One(MaySend(s.ra))
            && One(MaySend(u.rs)) + One(SendsNow(s, RsThread, e)) <= One(MaySend(s.rs))
  {
    hide DhcpStep, CopyStep, AdvNext, AdvHolder, AdvSent;
    CancelledNext(s.ra, RaThread, s.holder == None, s.prefix);
    CancelledNext(s.rs, RsThread, s.holder == None, s.prefix);
    DhcpStepFrame(host, s);
    if e.DhcpCopies? {
      AdvUntouched(host, s, e);
    }
  }

  lemma CancelledNext(pc: AdvPc, me: ThreadId, free: bool, prefix: Lease)
    ensures One(MaySend(AdvNext(pc, me, true, free, prefix))) + One(pc.AdvSend?) <= One(MaySend(pc))
  {
  }

  lemma CancelledDhcp(host: Host, s: State, e: Event)
    requires StartInv(s.mode, s.main, s.dhcp, s.ra, s.rs, s.outcomes) && Signalled(s)
    ensures var u := Step(host, s, e);
            |u.outcomes| + One(MayExchange(u.dhcp)) <= |s.outcomes| + One(MayExchange(s.dhcp))
  {
    hide DhcpStep, AdvNext, AdvHolder, AdvSent, CopyField, FromImage;
    DhcpStepFrame(host, s);
    CancelledCheck(host, s);
  }

  lemma CancelledCheck(host: Host, s: State)
    requires s.cancelDhcp
    ensures MayExchange(DhcpStep(host, s).dhcp) ==> MayExchange(s.dhcp)
  {
    hide SwapPreferred, SwapValid;
  }

  /** Events of a run that change the state. */
  function Effective(host: Host, s: State, events: seq<Event>): nat {
    if events == [] then 0
    else
      var n := |events| - 1;
      var before := Exec(host, s, events[..n]);
      Effective(host, s, events[..n]) + One(Step(host, before, events[n]) != before)
  }

  lemma {:induction false} WindingRun(host: Host, s: State, events: seq<Event>)
    requires Inv(host, s) && Signalled(s)
    ensures var t := Exec(host, s, events);
            && Inv(host, t) && Signalled(t)
            && Effective(host, s, events) + AllMovesLeft(t) <= AllMovesLeft(s)
            && One(MaySend(t.ra)) + Sends(host, s, RaThread, events) <= One(MaySend(s.ra))
            && One(MaySend(t.rs)) + Sends(host, s, RsThread, events) <= One(MaySend(s.rs))
            && |t.outcomes| + One(MayExchange(t.dhcp)) <= |s.outcomes| + One(MayExchange(s.dhcp))
  {
    hide Inv, StartInv, Step, Signalled, AllMovesLeft, MaySend, MayExchange, SendsNow;
    if events != [] {
      var n := |events| - 1;
      var t := Exec(host, s, events[..n]);
      WindingRun(host, s, events[..n]);
      StartOrder(host, t);
      StepInv(host, t, events[n]);
      WindsDown(host, t, events[n]);
      CancelledStep(host, t, events[n]);
    }
  }

  /** Shutdown: after a signal, in every continuation of every run, at most 34 more
      steps change anything, each advertising thread sends at most one more
      advertisement, and at most one more exchange ends. */
  lemma SignalWindsDown(host: Host, mode: Mode, events: seq<Event>, more: seq<Event>)
    ensures var s := Exec(host, Init(mode), events + [Signal]);
            && Effective(host, s, more) <= 34
            && Sends(host, s, RaThread, more) <= 1 && Sends(host, s, RsThread, more) <= 1
            && |Exec(host, s, more).outcomes| <= |s.outcomes| + 1
            && (s.main != MainExit ==> s.cancelDhcp && s.cancelRa && s.cancelRs)
  {
    hide Exec, Step, Init, Inv, AllMovesLeft;
    var s0 := Exec(host, Init(mode), events);
    var s := Exec(host, Init(mode), events + [Signal]);
    InvHolds(host, mode, events + [Signal]);
    ExecSplit(host, Init(mode), events, [Signal]);
    ExecNone(host, s0);
    ExecCons(host, s0, Signal, []);
    ExecNone(host, Step(host, s0, Signal));
    assert [Signal] + [] == [Signal];
    if s.main == MainExit {
      ExitedRun(host, s, more);
    } else {
      SignalSets(host, s0);
      WindingRun(host, s, more);
    }
  }

  lemma SignalSets(host: Host, s: State)
    ensures Step(host, s, Signal).main != MainExit ==> Signalled(Step(host, s, Signal))
  {
  }

  lemma {:induction false} ExitedRun(host: Host, s: State, events: seq<Event>)
    requires s.main == MainExit
    ensures Exec(host, s, events) == s && Effective(host, s, events) == 0
    ensures Sends(host, s, RaThread, events) == 0 && Sends(host, s, RsThread, events) == 0
  {
    if events != [] {
      ExitedRun(host, s, events[..|events| - 1]);
    }
  }

  lemma EndMoves(host: Host, s: State, t: ThreadId)
    requires t != DhcpThread && Alone(s, t) && Cancelled(s, t) && !Pc(s, t).AdvNotStarted? && !Pc(s, t).AdvDone?
    ensures var u := Step(host, s, SendEvent(Pc(s, t), t));
            && Alone(u, t) && Cancelled(u, t) && !Pc(u, t).AdvNotStarted? && MovesLeft(Pc(u, t)) < MovesLeft(Pc(s, t))
  {
    hide Step;
    ThreadRuns(host, s, t);
    ThreadTurn(host, s, t);
  }

  /** A cancelled thread that has been started can end by its own events whenever
      the mutex is free. */
  lemma CancelledEnds(host: Host, s: State, t: ThreadId)
    requires Inv(host, s) && t != DhcpThread && s.main != MainExit && s.holder == None
    requires Cancelled(s, t) && !Pc(s, t).AdvNotStarted?
    ensures exists events :: ByThread(t, events) && Pc(Exec(host, s, events), t) == AdvDone
  {
    hide Inv, Exec, Alone;
    AloneWhenFree(host, s, t);
    EndReached(host, s, t);
  }

  lemma {:induction false} EndReached(host: Host, s: State, t: ThreadId)
    requires t != DhcpThread && Alone(s, t) && Cancelled(s, t) && !Pc(s, t).AdvNotStarted?
    ensures exists events :: ByThread(t, events) && Pc(Exec(host, s, events), t) == AdvDone
    decreases MovesLeft(Pc(s, t))
  {
    hide Step, Exec, Alone, MovesLeft;
    if Pc(s, t).AdvDone? {
      ExecNone(host, s);
      assert ByThread(t, []);
    } else {
      var e := SendEvent(Pc(s, t), t);
      EndMoves(host, s, t);
      EndReached(host, Step(host, s, e), t);
      var rest :| ByThread(t, rest) && Pc(Exec(host, Step(host, s, e), rest), t) == AdvDone;
      ExecCons(host, s, e, rest);
      assert ByThread(t, [e] + rest);
    }
  }

  // ---- giving the mutex back ----

  /** Steps a thread takes by itself; a reply is not one of them. */
  predicate Owned(t: ThreadId, e: Event) {
    match t
    case DhcpThread => e.DhcpRuns? || e.DhcpSends? || e.DhcpCopies?
    case RaThread => e.RaRuns?
    case RsThread => e.RsRuns?
  }

  predicate AllOwned(holder: Option<ThreadId>, events: seq<Event>) {
    forall i :: 0 <= i < |events| ==> holder.Some? && Owned(holder.value, events[i])
  }

  /** Own steps the holder still needs before it unlocks. */
  function StepsToUnlock(s: State): nat {
    match s.holder
    case None => 0
    case Some(DhcpThread) =>
      (match s.dhcp
       case DhcpSend => 5
       case DhcpAwait => 9
       case DhcpCopy(_, todo) => 4 + |todo|
       case DhcpSwapPreferred => 4
       case DhcpSwapValid => 3
       case DhcpSetLength => 2
       case _ => 1)
    case Some(RaThread) => AdvSteps(s.ra)
    case Some(RsThread) => AdvSteps(s.rs)
  }

  function AdvSteps(pc: AdvPc): nat {
    match pc
    case AdvReadPrefix => 4
    case AdvReadRest(_) => 3
    case AdvSend(_) => 2
    case _ => 1
  }

  function AnyField(todo: set<Field>): (f: Field)
    requires todo != {}
    ensures f in todo
  {
    if PreferredField in todo then PreferredField
    else if ValidField in todo then ValidField
    else if LengthField in todo then LengthField
    else
      assert PrefixField in todo by {
        var f :| f in todo;
        assert f.PrefixField?;
      }
      PrefixField
  }

  /** An own step the holder can take now, unless it awaits a reply. */
  function HolderEvent(s: State): Event
    requires s.dhcp.DhcpCopy? ==> s.dhcp.todo != {}
  {
    match s.holder
    case Some(RaThread) => RaRuns
    case Some(RsThread) => RsRuns
    case _ =>
      match s.dhcp
      case DhcpSend => DhcpSends(false)
      case DhcpCopy(_, todo) => DhcpCopies(AnyField(todo))
      case _ => DhcpRuns
  }

  lemma HolderMoves(host: Host, s: State)
    requires Inv(host, s) && s.holder != None && s.main != MainExit && s.dhcp != DhcpAwait
    ensures s.dhcp.DhcpCopy? ==> s.dhcp.todo != {}
    ensures Owned(s.holder.value, HolderEvent(s))
    ensures var t := Step(host, s, HolderEvent(s));
            && StepsToUnlock(t) < StepsToUnlock(s) && t.main == s.main && t.dhcp != DhcpAwait
            && (t.holder == s.holder || t.holder == None)
  {
    hide SentInv, StartInv, AdvInv, SwapPreferred, SwapValid, CopyField, FromImage, Copied, Raw, Published, Initial;
    if s.holder == Some(DhcpThread) && s.dhcp.DhcpCopy? {
      var f := AnyField(s.dhcp.todo);
      assert |s.dhcp.todo - {f}| == |s.dhcp.todo| - 1;
    }
  }

  lemma {:induction false} Releasable(host: Host, s: State)
    requires Inv(host, s) && s.main != MainExit && s.dhcp != DhcpAwait
    ensures exists events ::
              AllOwned(s.holder, events) && Exec(host, s, events).holder == None && |events| <= StepsToUnlock(s)
    decreases StepsToUnlock(s)
  {
    hide Inv, Step, StepsToUnlock, HolderEvent, Owned;
    if s.holder == None {
      assert AllOwned(s.holder, []) && Exec(host, s, []).holder == None;
    } else {
      HolderMoves(host, s);
      var e := HolderEvent(s);
      var t := Step(host, s, e);
      StepInv(host, s, e);
      Releasable(host, t);
      var rest :| AllOwned(t.holder, rest) && Exec(host, t, rest).holder == None && |rest| <= StepsToUnlock(t);
      ExecCons(host, s, e, rest);
      var events := [e] + rest;
      forall i | 0 <= i < |events|
        ensures Owned(s.holder.value, events[i])
      {
        if i > 0 {
          assert events[i] == rest[i - 1];
        }
      }
      assert AllOwned(s.holder, events) && |events| <= StepsToUnlock(s);
    }
  }

  /** While the DHCP thread awaits a reply nothing but a reply changes the
      record, the mutex or what has been sent. */
  lemma AwaitStep(host: Host, s: State, e: Event)
    requires Inv(host, s) && s.dhcp == DhcpAwait && !e.DhcpReceives?
    ensures var t := Step(host, s, e);
            t.dhcp == DhcpAwait && t.holder == Some(DhcpThread) && t.prefix == s.prefix && t.sent == s.sent
            && t.outcomes == s.outcomes
  {
    hide SentInv, AdvInv, PrefixInv, AdvNext, Initial;
  }

  /** Starvation: a lost reply keeps the mutex for ever.  In every continuation
      without a reply the DHCP thread still holds it, the record stays as it is
      and no advertisement is sent, whatever the other threads do. */
  lemma {:induction false} LostReplyStarves(host: Host, s: State, events: seq<Event>)
    requires Inv(host, s) && s.dhcp == DhcpAwait
    requires forall i :: 0 <= i < |events| ==> !events[i].DhcpReceives?
    ensures var t := Exec(host, s, events);
            Inv(host, t) && t.dhcp == DhcpAwait && t.holder == Some(DhcpThread) && t.prefix == s.prefix && t.sent == s.sent
            && t.outcomes == s.outcomes
  {
    hide Inv, Step;
    if events == [] {
      AwaitHolds(host, s);
    } else {
      var n := |events| - 1;
      LostReplyStarves(host, s, events[..n]);
      AwaitStep(host, Exec(host, s, events[..n]), events[n]);
      StepInv(host, Exec(host, s, events[..n]), events[n]);
    }
  }

  lemma AwaitHolds(host: Host, s: State)
    requires Inv(host, s) && s.dhcp == DhcpAwait
    ensures s.holder == Some(DhcpThread)
  {
    hide SentInv, AdvInv, PrefixInv, StartInv;
  }

  /** In a running process the mutex can be released by steps of its holder
      alone if and only if the holder is not awaiting a reply. */
  lemma ReleasedByOwnSteps(host: Host, s: State)
    requires Inv(host, s) && s.main != MainExit
    ensures (exists events :: AllOwned(s.holder, events) && Exec(host, s, events).holder == None) <==> s.dhcp != DhcpAwait
  {
    hide Inv, Exec, Step, StepsToUnlock;
    if s.dhcp == DhcpAwait {
      AwaitHolds(host, s);
      forall events: seq<Event> | AllOwned(s.holder, events)
        ensures Exec(host, s, events).holder != None
      {
        forall i | 0 <= i < |events|
          ensures !events[i].DhcpReceives?
        {
          assert Owned(DhcpThread, events[i]);
        }
        LostReplyStarves(host, s, events);
      }
    } else {
      Releasable(host, s);
    }
  }

  /** Such a state is reached by the first exchange of a run. */
  lemma AwaitReached(host: Host)
    ensures exists events :: Exec(host, Init(DhcpMode), events).dhcp == DhcpAwait
  {
    hide Exec, Step;
    var s0 := Init(DhcpMode);
    var s1 := s0.(dhcp := DhcpLock, main := MainSpin);
    var s2 := s1.(holder := Some(DhcpThread), dhcp := DhcpSend);
    var s3 := s2.(dhcp := DhcpAwait);
    var lockAndSend := [DhcpRuns, DhcpSends(true)];
    StartRound(host);
    OneStep(host, s1, DhcpRuns, s2);
    OneStep(host, s2, DhcpSends(true), s3);
    Steps(host, [s1, s2, s3], lockAndSend, 2);
    assert lockAndSend[..2] == lockAndSend;
    ExecSplit(host, s0, START, lockAndSend);
  }

  /** Past the exchange, or in an advertising thread, the holder depends on
      nobody else. */
  predicate Unaided(s: State) {
    s.holder != None && s.dhcp != DhcpSend && s.dhcp != DhcpAwait
  }

  /** How many of the events are effective steps of thread `t`. */
  function OwnMoves(host: Host, s: State, t: ThreadId, events: seq<Event>): nat {
    if events == [] then 0
    else
      var n := |events| - 1;
      var before := Exec(host, s, events[..n]);
      OwnMoves(host, s, t, events[..n]) + if Owned(t, events[n]) && Step(host, before, events[n]) != before then 1 else 0
  }

  /** A step brings the holder's release closer or leaves it where it is. */
  predicate Closer(s: State, t: State, own: bool) {
    || t.holder == None
    || (t.holder == s.holder && Unaided(t) && StepsToUnlock(t) <= StepsToUnlock(s)
        && (own && t != s ==> StepsToUnlock(t) < StepsToUnlock(s)))
  }

  lemma UnaidedDhcp(host: Host, s: State)
    requires HolderInv(s.holder, s.dhcp, s.ra, s.rs) && Unaided(s)
    ensures Closer(s, DhcpStep(host, s), s.holder == Some(DhcpThread))
  {
    hide SwapPreferred, SwapValid, AdvCritical;
  }

  lemma UnaidedCopy(host: Host, s: State, f: Field)
    requires HolderInv(s.holder, s.dhcp, s.ra, s.rs) && Unaided(s)
    ensures Closer(s, CopyStep(host, s, f), s.holder == Some(DhcpThread))
  {
    hide CopyField, FromImage, AdvCritical;
    if s.dhcp.DhcpCopy? && f in s.dhcp.todo {
      assert |s.dhcp.todo - {f}| == |s.dhcp.todo| - 1;
    }
  }

  lemma UnaidedRa(s: State)
    requires HolderInv(s.holder, s.dhcp, s.ra, s.rs) && Unaided(s)
    ensures Closer(s, RaStep(s), s.holder == Some(RaThread))
  {
    hide DhcpCritical;
  }

  lemma UnaidedRs(s: State)
    requires HolderInv(s.holder, s.dhcp, s.ra, s.rs) && Unaided(s)
    ensures Closer(s, RsStep(s), s.holder == Some(RsThread))
  {
    hide DhcpCritical;
  }

  lemma UnaidedMain(s: State)
    requires HolderInv(s.holder, s.dhcp, s.ra, s.rs) && Unaided(s)
    requires StartInv(s.mode, s.main, s.dhcp, s.ra, s.rs, s.outcomes)
    ensures Closer(s, MainStep(s), false)
  {
  }

  lemma UnaidedStep(host: Host, s: State, e: Event)
    requires Inv(host, s) && Unaided(s)
    ensures Closer(s, Step(host, s, e), Owned(s.holder.value, e))
  {
    hide SentInv, AdvInv, PrefixInv, MainStep, DhcpStep, CopyStep, RaStep, RsStep;
    match e
    case MainRuns => UnaidedMain(s);
    case DhcpRuns => UnaidedDhcp(host, s);
    case DhcpCopies(f) => UnaidedCopy(host, s, f);
    case RaRuns => UnaidedRa(s);
    case RsRuns => UnaidedRs(s);
    case _ =>
  }

  lemma UnlockedAt(s: State)
    requires StepsToUnlock(s) == 0
    ensures s.holder == None
  {
  }

  lemma {:induction false} UnaidedRun(host: Host, s: State, events: seq<Event>)
    requires Inv(host, s) && Unaided(s)
    ensures var t := Exec(host, s, events);
            || (exists n :: 0 <= n <= |events| && Exec(host, s, events[..n]).holder == None)
            || (Inv(host, t) && t.holder == s.holder && Unaided(t)
                && StepsToUnlock(t) + OwnMoves(host, s, s.holder.value, events) <= StepsToUnlock(s))
  {
    hide Inv, Step, StepsToUnlock, Owned, Unaided;
    UnaidedHolds(s);
    if events != [] {
      var n := |events| - 1;
      var before := Exec(host, s, events[..n]);
      UnaidedRun(host, s, events[..n]);
      if exists k :: 0 <= k <= n && Exec(host, s, events[..n][..k]).holder == None {
        var k :| 0 <= k <= n && Exec(host, s, events[..n][..k]).holder == None;
        assert events[..n][..k] == events[..k];
      } else {
        UnaidedStep(host, before, events[n]);
        StepInv(host, before, events[n]);
        assert events[..n + 1] == events;
      }
    }
  }

  lemma UnaidedHolds(s: State)
    requires Unaided(s)
    ensures s.holder != None
  {
  }

  /** Past the exchange release is certain under every schedule: however the
      threads interleave, once the holder has made the few steps it needs the
      mutex has been released. */
  lemma SurelyReleased(host: Host, s: State, events: seq<Event>)
    requires Inv(host, s) && Unaided(s)
    requires OwnMoves(host, s, s.holder.value, events) >= StepsToUnlock(s)
    ensures exists n :: 0 <= n <= |events| && Exec(host, s, events[..n]).holder == None
  {
    hide Inv, Exec, StepsToUnlock, OwnMoves;
    UnaidedRun(host, s, events);
    if !(exists n :: 0 <= n <= |events| && Exec(host, s, events[..n]).holder == None) {
      UnlockedAt(Exec(host, s, events));
      UnaidedHolds(Exec(host, s, events));
    }
  }

  // ---- shutdown ----

  /** `main` spins on a length that nobody will set any more, or is about to. */
  predicate SpinsForever(s: State) {
    || (s.main.MainSpin? && s.prefix.prefixLength == 0
        && (s.dhcp.DhcpDone? || ((s.dhcp.DhcpSetup? || s.dhcp.DhcpCheck?) && s.cancelDhcp)))
    || (s.main.MainStart? && s.mode.DhcpMode? && s.cancelDhcp)
  }

  lemma SpinStep(host: Host, s: State, e: Event)
    requires Inv(host, s) && SpinsForever(s)
    ensures SpinsForever(Step(host, s, e)) && Step(host, s, e).sent == s.sent
  {
    hide SentInv, AdvInv, Raw, SwapPreferred, SwapValid, FromImage, Copied;
  }

  lemma {:induction false} SpinRun(host: Host, s: State, events: seq<Event>)
    requires Inv(host, s) && SpinsForever(s)
    ensures var t := Exec(host, s, events);
            Inv(host, t) && SpinsForever(t) && t.sent == s.sent
  {
    hide Inv, Step, SpinsForever;
    if events != [] {
      var n := |events| - 1;
      SpinRun(host, s, events[..n]);
      SpinStep(host, Exec(host, s, events[..n]), events[n]);
      StepInv(host, Exec(host, s, events[..n]), events[n]);
    }
  }

  /** DHCP steps until the length is set, for a gate that can still open. */
  function StepsToLength(pc: DhcpPc): nat {
    match pc
    case DhcpSetLength => 1
    case DhcpSwapValid => 2
    case DhcpSwapPreferred => 3
    case DhcpCopy(_, todo) => 3 + |todo|
    case DhcpAwait => 8
    case DhcpSend => 4
    case DhcpLock => 5
    case DhcpCheck => 6
    case _ => 7
  }

  function LengthEvent(pc: DhcpPc): Event
    requires pc.DhcpCopy? ==> pc.todo != {}
  {
    match pc
    case DhcpSend => DhcpSends(false)
    case DhcpAwait => DhcpReceives(ZERO_IMAGE)
    case DhcpCopy(_, todo) => DhcpCopies(AnyField(todo))
    case _ => DhcpRuns
  }

  const ZERO_IMAGE: Image :=
    [0, 0, 0, 0, 0, 0, 0, 0, 0, 0, 0, 0, 0, 0, 0, 0, 0, 0, 0, 0, 0, 0, 0, 0, 0]

  /** After an exchange the length is 64. */
  lemma ExchangedLength(host: Host, s: State)
    requires Inv(host, s) && (s.dhcp.DhcpUnlock? || s.dhcp.DhcpSleep?)
    ensures s.prefix.prefixLength == 64
  {
    hide SentInv, AdvInv, HolderInv, StartInv, SwapPreferred, SwapValid, Initial;
  }

  lemma LockFree(s: State)
    requires HolderInv(s.holder, s.dhcp, s.ra, s.rs) && StartInv(s.mode, s.main, s.dhcp, s.ra, s.rs, s.outcomes)
    requires s.main.MainSpin? && s.dhcp.DhcpLock?
    ensures s.holder == None
  {
    match s.holder
    case None =>
    case Some(DhcpThread) =>
    case Some(RaThread) =>
    case Some(RsThread) =>
  }

  /** A DHCP thread that can still set the length comes closer to it. */
  lemma LengthStep(host: Host, s: State)
    requires s.main.MainSpin? && s.prefix.prefixLength == 0
    requires !s.dhcp.DhcpNotStarted? && !s.dhcp.DhcpDone? && !s.dhcp.DhcpUnlock? && !s.dhcp.DhcpSleep?
    requires (s.dhcp.DhcpSetup? || s.dhcp.DhcpCheck? ==> !s.cancelDhcp) && (s.dhcp.DhcpLock? ==> s.holder == None)
    requires s.dhcp.DhcpCopy? ==> s.dhcp.todo != {}
    ensures var t := Step(host, s, LengthEvent(s.dhcp));
            && t.main.MainSpin? && t.mode == s.mode && !t.dhcp.DhcpDone? && !t.dhcp.DhcpSetup? && (t.dhcp.DhcpCheck? ==> !t.cancelDhcp)
            && (t.prefix.prefixLength == 0 ==> StepsToLength(t.dhcp) < StepsToLength(s.dhcp))
  {
    hide Step, StepsToLength;
    if s.dhcp.DhcpSend? || s.dhcp.DhcpAwait? || s.dhcp.DhcpCopy? {
      LengthExchange(host, s);
    } else {
      LengthRuns(host, s);
    }
  }

  lemma LengthExchange(host: Host, s: State)
    requires s.main.MainSpin? && s.prefix.prefixLength == 0 && (s.dhcp.DhcpSend? || s.dhcp.DhcpAwait? || s.dhcp.DhcpCopy?)
    requires s.dhcp.DhcpCopy? ==> s.dhcp.todo != {}
    ensures var t := Step(host, s, LengthEvent(s.dhcp));
            && t.main.MainSpin? && t.mode == s.mode && (t.dhcp.DhcpAwait? || t.dhcp.DhcpCopy? || t.dhcp.DhcpSwapPreferred?)
            && StepsToLength(t.dhcp) < StepsToLength(s.dhcp)
  {
    hide MainStep, DhcpStep, RaStep, RsStep, ControlStep, CopyField, FromImage;
    assert |ALL_FIELDS| == 4;
    if s.dhcp.DhcpCopy? {
      assert |s.dhcp.todo - {AnyField(s.dhcp.todo)}| == |s.dhcp.todo| - 1;
    }
  }

  lemma LengthRuns(host: Host, s: State)
    requires !s.dhcp.DhcpSend? && !s.dhcp.DhcpAwait? && !s.dhcp.DhcpCopy?
    requires s.main.MainSpin? && s.prefix.prefixLength == 0
    requires !s.dhcp.DhcpNotStarted? && !s.dhcp.DhcpDone? && !s.dhcp.DhcpUnlock? && !s.dhcp.DhcpSleep?
    requires (s.dhcp.DhcpSetup? || s.dhcp.DhcpCheck? ==> !s.cancelDhcp) && (s.dhcp.DhcpLock? ==> s.holder == None)
    ensures var t := Step(host, s, LengthEvent(s.dhcp));
            && t.main.MainSpin? && t.mode == s.mode && !t.dhcp.DhcpDone? && !t.dhcp.DhcpSetup? && (t.dhcp.DhcpCheck? ==> !t.cancelDhcp)
            && (t.prefix.prefixLength == 0 ==> StepsToLength(t.dhcp) < StepsToLength(s.dhcp))
  {
    hide MainStep, RaStep, RsStep, ControlStep, SwapPreferred, SwapValid;
  }

  lemma LengthMoves(host: Host, s: State)
    requires Inv(host, s) && s.main.MainSpin? && s.prefix.prefixLength == 0 && !SpinsForever(s)
    ensures s.dhcp.DhcpCopy? ==> s.dhcp.todo != {}
    ensures var t := Step(host, s, LengthEvent(s.dhcp));
            && t.main.MainSpin? && !SpinsForever(t)
            && (t.prefix.prefixLength == 0 ==> StepsToLength(t.dhcp) < StepsToLength(s.dhcp))
  {
    hide SentInv, AdvInv, HolderInv, Step, StepsToLength, Raw, Published, Copied, SwapPreferred, SwapValid, FromImage, Initial;
    if s.dhcp.DhcpUnlock? || s.dhcp.DhcpSleep? {
      ExchangedLength(host, s);
    }
    if s.dhcp.DhcpLock? {
      LockFree(s);
    }
    LengthStep(host, s);
  }

  /** From the gate on, a signal ends the process. */
  lemma {:induction false} ExitsPastGate(host: Host, s: State)
    requires !s.main.MainStart? && !(s.main.MainSpin? && s.prefix.prefixLength == 0)
    ensures exists events :: Exec(host, s, events).main == MainExit
    decreases match s.main case MainSpin => 4 case MainStartRa => 3 case MainStartRs => 2 case MainWait => 1 case _ => 0
  {
    hide Exec;
    if s.main == MainExit {
      ExecNone(host, s);
    } else if s.main == MainWait {
      var s1 := Step(host, s, Signal);
      assert s1.main == MainWait && s1.cancelRa;
      var s2 := Step(host, s1, MainRuns);
      ExecNone(host, s2);
      ExecCons(host, s1, MainRuns, []);
      ExecCons(host, s, Signal, [MainRuns] + []);
    } else {
      var t := Step(host, s, MainRuns);
      ExitsPastGate(host, t);
      var rest :| Exec(host, t, rest).main == MainExit;
      ExecCons(host, s, MainRuns, rest);
    }
  }

  lemma ExecNone(host: Host, s: State)
    ensures Exec(host, s, []) == s
  {
  }

  lemma {:induction false} ExitsFromSpin(host: Host, s: State)
    requires Inv(host, s) && s.main.MainSpin? && !SpinsForever(s)
    ensures exists events :: Exec(host, s, events).main == MainExit
    decreases if s.prefix.prefixLength == 0 then 1 + StepsToLength(s.dhcp) else 0
  {
    hide Inv, Exec, Step, StepsToLength, SpinsForever, LengthEvent;
    if s.prefix.prefixLength != 0 {
      ExitsPastGate(host, s);
    } else {
      LengthMoves(host, s);
      var e := LengthEvent(s.dhcp);
      var t := Step(host, s, e);
      StepInv(host, s, e);
      ExitsFromSpin(host, t);
      var rest :| Exec(host, t, rest).main == MainExit;
      ExecCons(host, s, e, rest);
    }
  }

  lemma StartSpins(host: Host, s: State)
    requires Inv(host, s) && s.main.MainStart? && !SpinsForever(s)
    ensures var t := Step(host, s, MainRuns);
            !t.main.MainStart? && (t.main.MainSpin? ==> !SpinsForever(t))
  {
    hide SentInv, AdvInv, PrefixInv, HolderInv;
  }

  lemma SpinsNotExit(s: State)
    requires SpinsForever(s)
    ensures s.main != MainExit
  {
  }

  /** The process can still exit if and only if `main` does not spin on a zero
      length with the DHCP thread finished or about to finish: the spin does not
      look at the cancel flags, so a signal before the first exchange, or a
      failure to set up the socket, leaves `main` spinning in every continuation. */
  lemma ExitReachable(host: Host, s: State)
    requires Inv(host, s)
    ensures (exists events :: Exec(host, s, events).main == MainExit) <==> !SpinsForever(s)
  {
    hide Inv, Exec, Step, SpinsForever;
    if SpinsForever(s) {
      forall events
        ensures Exec(host, s, events).main != MainExit
      {
        SpinRun(host, s, events);
        SpinsNotExit(Exec(host, s, events));
      }
    } else if s.main.MainStart? {
      StartSpins(host, s);
      var t := Step(host, s, MainRuns);
      StepInv(host, s, MainRuns);
      if t.main.MainSpin? {
        ExitsFromSpin(host, t);
      } else {
        ExitsPastGate(host, t);
      }
      var rest :| Exec(host, t, rest).main == MainExit;
      ExecCons(host, s, MainRuns, rest);
    } else if s.main.MainSpin? {
      ExitsFromSpin(host, s);
    } else {
      ExitsPastGate(host, s);
    }
  }

  /** The shortest such runs: started in DHCP mode and signalled at once, or left
      by the DHCP thread before its loop. */
  lemma EarlySignalHangs(host: Host, events: seq<Event>)
    ensures var t := Exec(host, Init(DhcpMode), [MainRuns, Signal] + events);
            t.main.MainSpin? && t.sent == []
  {
    hide Exec, Step, Inv;
    var s1 := Init(DhcpMode).(dhcp := DhcpSetup, main := MainSpin);
    SignalStep(host, s1);
    HangsAfter(host, Signal, s1.(cancelDhcp := true, cancelRa := true, cancelRs := true), events);
  }

  lemma SetupFailureHangs(host: Host, flagged: bool, events: seq<Event>)
    ensures var t := Exec(host, Init(DhcpMode), [MainRuns, DhcpAborts(flagged)] + events);
            t.main.MainSpin? && t.sent == []
  {
    hide Exec, Step, Inv;
    var s1 := Init(DhcpMode).(dhcp := DhcpSetup, main := MainSpin);
    OneStep(host, s1, DhcpAborts(flagged), s1.(dhcp := DhcpDone, cancelDhcp := flagged));
    HangsAfter(host, DhcpAborts(flagged), s1.(dhcp := DhcpDone, cancelDhcp := flagged), events);
  }

  lemma HangsAfter(host: Host, e: Event, s: State, events: seq<Event>)
    requires s == Step(host, Init(DhcpMode).(dhcp := DhcpSetup, main := MainSpin), e)
    requires SpinsForever(s) && s.main.MainSpin? && s.sent == []
    ensures var t := Exec(host, Init(DhcpMode), [MainRuns, e] + events);
            t.main.MainSpin? && t.sent == []
  {
    hide Exec, Step, Inv, SpinsForever;
    var s0 := Init(DhcpMode);
    var s1 := s0.(dhcp := DhcpSetup, main := MainSpin);
    OneStep(host, s0, MainRuns, s1);
    var start := [MainRuns, e];
    Steps(host, [s0, s1, s], start, 2);
    assert start[..2] == start;
    InvHolds(host, DhcpMode, start);
    SpinRun(host, s, events);
    ExecSplit(host, s0, start, events);
    StaysSpinning(host, s, events);
  }

  lemma SignalStep(host: Host, s: State)
    requires s.main != MainExit
    ensures Step(host, s, Signal) == s.(cancelDhcp := true, cancelRa := true, cancelRs := true)
  {
  }

  lemma SpinningStep(host: Host, s: State, e: Event)
    requires Inv(host, s) && SpinsForever(s) && s.main.MainSpin?
    ensures Step(host, s, e).main.MainSpin?
  {
    hide SentInv, PrefixInv, AdvInv, HolderInv, DhcpStep, AdvNext, AdvHolder, AdvSent, CopyField, FromImage;
    DhcpStepFrame(host, s);
  }

  lemma {:induction false} StaysSpinning(host: Host, s: State, events: seq<Event>)
    requires Inv(host, s) && SpinsForever(s) && s.main.MainSpin?
    ensures Exec(host, s, events).main.MainSpin?
  {
    hide Inv, Step, SpinsForever;
    if events != [] {
      var n := |events| - 1;
      StaysSpinning(host, s, events[..n]);
      SpinRun(host, s, events[..n]);
      SpinningStep(host, Exec(host, s, events[..n]), events[n]);
    }
  }

  // ---- the threads over the shared variables ----

  /** The safety of one step, seen from the shared variables: the record changes
      only under the DHCP thread's lock, the mutex passes through the unlocked
      state, and what is sent is one advertisement of the complete record, by an
      advertising thread that holds the mutex. */
  predicate SafeStep(host: Host, s: State, t: State) {
    && (t.prefix != s.prefix ==> s.holder == Some(DhcpThread) && t.holder == Some(DhcpThread))
    && (t.holder == s.holder || s.holder == None || t.holder == None)
    && (t.sent == s.sent
        || (t.sent == s.sent + [Sent(RaOf(s.prefix), |s.outcomes|)]
            && s.holder.Some? && s.holder != Some(DhcpThread)
            && s.prefix == Published(host, Initial(s.mode), s.outcomes)))
    && s.outcomes <= t.outcomes
  }

  lemma DhcpSafe(host: Host, s: State)
    requires Inv(host, s)
    ensures SafeStep(host, s, DhcpStep(host, s))
  {
    hide SentInv, StartInv, AdvInv, PrefixInv, AdvCritical, SwapPreferred, SwapValid, Published, Initial;
  }

  lemma RaSafe(host: Host, s: State)
    requires Inv(host, s)
    ensures SafeStep(host, s, RaStep(s))
  {
    hide SentInv, StartInv, AdvNext, Published, Initial, Raw, SwapPreferred, SwapValid, Copied, FromImage;
  }

  lemma RsSafe(host: Host, s: State)
    requires Inv(host, s)
    ensures SafeStep(host, s, RsStep(s))
  {
    hide SentInv, StartInv, AdvNext, Published, Initial, Raw, SwapPreferred, SwapValid, Copied, FromImage;
  }

  lemma ControlSafe(host: Host, s: State, e: Event)
    ensures SafeStep(host, s, ControlStep(s, e))
  {
    hide Published, Initial;
  }

  /** Every step of every thread is safe. */
  lemma StepSafe(host: Host, s: State, e: Event)
    requires Inv(host, s)
    ensures SafeStep(host, s, Step(host, s, e))
  {
    hide SentInv, StartInv, AdvInv, PrefixInv, DhcpStep, RaStep, RsStep, ControlStep, CopyField, FromImage, Published, Initial;
    match e
    case DhcpAborts(_) => ControlSafe(host, s, e);
    case DhcpWakes => ControlSafe(host, s, e);
    case RaAborts => ControlSafe(host, s, e);
    case RaWakes => ControlSafe(host, s, e);
    case RsAborts(_) => ControlSafe(host, s, e);
    case RsReceives => ControlSafe(host, s, e);
    case DhcpRuns => DhcpSafe(host, s);
    case RaRuns => RaSafe(host, s);
    case RsRuns => RsSafe(host, s);
    case _ =>
  }

  /** The global variables, the mutex and the program counters, updated in place
      one atomic step at a time. */
  class Daemon {
    const host: Host
    const mode: Mode
    var prefix: Lease
    var holder: Option<ThreadId>
    var dhcp: DhcpPc
    var ra: AdvPc
    var rs: AdvPc
    var main: MainPc
    var cancelDhcp: bool
    var cancelRa: bool
    var cancelRs: bool
    var outcomes: seq<Outcome>
    var sent: seq<Sent>

    ghost function View(): State
      reads this
    {
      State(mode, prefix, holder, dhcp, ra, rs, main, cancelDhcp, cancelRa, cancelRs, outcomes, sent)
    }

    constructor (host: Host, mode: Mode)
      ensures this.host == host && View() == Init(mode)
    {
      this.host, this.mode := host, mode;
      match mode {
        case DhcpMode => prefix := ZERO_LEASE;
        case StaticMode(address, length) => prefix := Lease(24000, 48000, length, address);
      }
      holder, dhcp, ra, rs, main := None, DhcpNotStarted, AdvNotStarted, AdvNotStarted, MainStart;
      cancelDhcp, cancelRa, cancelRs := false, false, false;
      outcomes, sent := [], [];
    }

    method RunMain()
      modifies this`dhcp, this`ra, this`rs, this`main
      ensures View() == MainStep(old(View()))
      ensures old(main).MainWait? ==> (main.MainExit? <==> cancelRa || cancelRs)
    {
      match main {
        case MainStart =>
          if mode.DhcpMode? {
            dhcp := DhcpSetup;
            main := MainSpin;
          } else {
            main := MainStartRa;
          }
        case MainSpin =>
          if prefix.prefixLength != 0 {
            main := MainStartRa;
          }
        case MainStartRa =>
          ra := AdvSetup;
          main := MainStartRs;
        case MainStartRs =>
          rs := AdvSetup;
          main := MainWait;
        case MainWait =>
          if cancelRs || cancelRa {
            main := MainExit;
          }
        case MainExit =>
      }
    }

    /** The record is written only under the lock. */
    method RunDhcp()
      requires DhcpCritical(dhcp) <==> holder == Some(DhcpThread)
      modifies this`prefix, this`holder, this`dhcp
      ensures View() == DhcpStep(host, old(View()))
      ensures DhcpCritical(dhcp) <==> holder == Some(DhcpThread)
      ensures prefix != old(prefix) ==> old(holder) == holder == Some(DhcpThread)
    {
      match dhcp {
        case DhcpSetup => dhcp := DhcpCheck;
        case DhcpCheck => dhcp := if cancelDhcp then DhcpDone else DhcpLock;
        case DhcpLock =>
          if holder == None {
            holder := Some(DhcpThread);
            dhcp := DhcpSend;
          }
        case DhcpSwapPreferred =>
          prefix := prefix.(preferred := HToBe32(host, prefix.preferred));
          dhcp := DhcpSwapValid;
        case DhcpSwapValid =>
          prefix := prefix.(valid := HToBe32(host, prefix.valid));
          dhcp := DhcpSetLength;
        case DhcpSetLength =>
          prefix := prefix.(prefixLength := 64);
          dhcp := DhcpUnlock;
        case DhcpUnlock =>
          holder := None;
          dhcp := DhcpSleep;
        case _ =>
      }
    }

    /** Giving up before a loop, the end of a sleep, the arrival of a
        solicitation. */
    method Control(e: Event)
      modifies this`dhcp, this`ra, this`rs, this`main, this`cancelDhcp, this`cancelRa
      ensures View() == ControlStep(old(View()), e)
    {
      match e {
        case DhcpAborts(flagged) =>
          if dhcp.DhcpSetup? {
            dhcp := DhcpDone;
            cancelDhcp := cancelDhcp || flagged;
          }
        case DhcpWakes =>
          if dhcp.DhcpSleep? {
            dhcp := DhcpCheck;
          }
        case RaAborts =>
          if ra.AdvSetup? {
            ra := AdvDone;
            cancelRa := true;
          }
        case RaWakes =>
          if ra.AdvSleep? {
            ra := AdvCheck;
          }
        case RsAborts(fatal) =>
          if rs.AdvSetup? && fatal {
            main := MainExit;
          } else if rs.AdvSetup? {
            rs := AdvDone;
          }
        case RsReceives =>
          if rs.AdvReceive? {
            rs := AdvLock;
          }
        case _ =>
      }
    }

    /** Sending fails at once or leads to the wait for a reply. */
    method Send(accepted: bool)
      modifies this`dhcp, this`outcomes
      ensures View() == SendStep(old(View()), accepted)
    {
      if dhcp.DhcpSend? {
        if accepted {
          dhcp := DhcpAwait;
        } else {
          outcomes := outcomes + [SendFailed];
          dhcp := DhcpSwapPreferred;
        }
      }
    }

    method Receive(image: Image)
      modifies this`dhcp, this`outcomes
      ensures View() == ReceiveStep(old(View()), image)
    {
      if dhcp.DhcpAwait? {
        outcomes := outcomes + [Delivered(image)];
        dhcp := DhcpCopy(image, ALL_FIELDS);
      }
    }

    /** One field of the copy out of the reply; after the last one the record is
        the reply. */
    method CopyOne(f: Field)
      requires dhcp.DhcpCopy? ==> Copied(prefix, FromImage(host, dhcp.image), dhcp.todo)
      modifies this`prefix, this`dhcp
      ensures View() == CopyStep(host, old(View()), f)
      ensures dhcp.DhcpCopy? ==> Copied(prefix, FromImage(host, dhcp.image), dhcp.todo)
      ensures old(dhcp).DhcpCopy? && dhcp.DhcpSwapPreferred? ==> prefix == FromImage(host, old(dhcp).image)
    {
      hide FromImage;
      if dhcp.DhcpCopy? && f in dhcp.todo {
        var source := FromImage(host, dhcp.image);
        match f {
          case PreferredField => prefix := prefix.(preferred := source.preferred);
          case ValidField => prefix := prefix.(valid := source.valid);
          case LengthField => prefix := prefix.(prefixLength := source.prefixLength);
          case PrefixField => prefix := prefix.(prefix := source.prefix);
        }
        var todo := dhcp.todo - {f};
        assert Copied(prefix, source, todo);
        CopiedAll(prefix, source, todo);
        if todo == {} {
          dhcp := DhcpSwapPreferred;
        } else {
          dhcp := DhcpCopy(dhcp.image, todo);
        }
      }
    }

    /** One step of the RA or RS thread.  It reads the record only while it holds
        the mutex, so what it remembers stays true of the record, and it sends
        the record as it is. */
    method Advance(pc: AdvPc, me: ThreadId, cancelled: bool) returns (next: AdvPc)
      requires me != DhcpThread && AdvInv(prefix, pc) && (AdvCritical(pc) <==> holder == Some(me))
      modifies this`holder, this`sent
      ensures next == AdvNext(pc, me, cancelled, old(holder) == None, prefix)
      ensures holder == AdvHolder(pc, me, old(holder))
      ensures sent == AdvSent(pc, |outcomes|, old(sent))
      ensures AdvInv(prefix, next) && (AdvCritical(next) <==> holder == Some(me))
      ensures sent != old(sent) ==> old(holder) == Some(me) && sent == old(sent) + [Sent(RaOf(prefix), |outcomes|)]
    {
      next := pc;
      match pc {
        case AdvSetup => next := AdvCheck;
        case AdvCheck => next := if cancelled then AdvDone else if me == RsThread then AdvReceive else AdvLock;
        case AdvLock =>
          if holder == None {
            holder := Some(me);
            next := AdvReadPrefix;
          }
        case AdvReadPrefix => next := AdvReadRest(prefix.prefix);
        case AdvReadRest(address) =>
          next := AdvSend(Ra(address, prefix.prefixLength, prefix.valid, prefix.preferred));
        case AdvSend(advert) =>
          sent := sent + [Sent(advert, |outcomes|)];
          next := AdvUnlock;
        case AdvUnlock =>
          holder := None;
          next := if me == RaThread then AdvSleep else AdvCheck;
        case _ =>
      }
    }

    /** One step of any thread keeps the invariant and is safe. */
    method Perform(e: Event)
      requires Inv(host, View())
      modifies this
      ensures View() == Step(host, old(View()), e)
      ensures Inv(host, View()) && SafeStep(host, old(View()), View())
    {
      hide PrefixInv, SentInv, StartInv, SafeStep, AdvInv, AdvCritical, DhcpCritical;
      ThreadFacts(host, View());
      StepInv(host, View(), e);
      StepSafe(host, View(), e);
      if main == MainExit {
        return;
      }
      match e {
        case MainRuns => RunMain();
        case DhcpRuns => RunDhcp();
        case DhcpSends(accepted) => Send(accepted);
        case DhcpReceives(image) => Receive(image);
        case DhcpCopies(f) => CopyOne(f);
        case RaRuns => ra := Advance(ra, RaThread, cancelRa);
        case RsRuns => rs := Advance(rs, RsThread, cancelRs);
        case Signal => cancelDhcp, cancelRa, cancelRs := true, true, true;
        case _ => Control(e);
      }
    }

    /** Any schedule, from any state the invariant describes: nothing sent is
        ever taken back, and every new advertisement carries one complete
        record. */
    method Run(events: seq<Event>)
      requires Inv(host, View())
      modifies this
      ensures View() == Exec(host, old(View()), events) && Inv(host, View())
      ensures old(sent) <= sent && old(outcomes) <= outcomes
      ensures forall i :: |old(sent)| <= i < |sent| ==> SentFrom(host, mode, outcomes, sent[i])
    {
      hide Inv, Step, SentFrom;
      for i := 0 to |events|
        invariant View() == Exec(host, old(View()), events[..i]) && Inv(host, View())
        invariant old(sent) <= sent && old(outcomes) <= outcomes
      {
        Perform(events[i]);
        assert events[..i + 1][..i] == events[..i];
      }
      assert events[..|events|] == events;
      SentFacts(host, View());
    }
  }

  lemma ThreadFacts(host: Host, s: State)
    requires Inv(host, s)
    ensures DhcpCritical(s.dhcp) <==> s.holder == Some(DhcpThread)
    ensures s.dhcp.DhcpCopy? ==> Copied(s.prefix, FromImage(host, s.dhcp.image), s.dhcp.todo)
    ensures AdvInv(s.prefix, s.ra) && (AdvCritical(s.ra) <==> s.holder == Some(RaThread))
    ensures AdvInv(s.prefix, s.rs) && (AdvCritical(s.rs) <==> s.holder == Some(RsThread))
  {
    hide SentInv, StartInv, AdvInv, AdvCritical, DhcpCritical, Copied, FromImage;
  }

  lemma SentFacts(host: Host, s: State)
    requires Inv(host, s)
    ensures forall i :: 0 <= i < |s.sent| ==> SentFrom(host, s.mode, s.outcomes, s.sent[i])
  {
    hide SentFrom, PrefixInv, HolderInv, StartInv, AdvInv;
  }
}
