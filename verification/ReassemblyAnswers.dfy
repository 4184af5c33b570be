/** What the reassembly buffer answers, told by the arrivals alone: every answer, every open entry
    and every delivery is decided by the fragments that came since the entry was created. */
module ReassemblyAnswers {
  import opened CrcSpec
  import opened LittleEndian
  import opened Coverage
  import opened Reassembly
  import opened ReassemblyRuns
  import opened ReassemblyLaws

  // ----- The size limit -----

  lemma TakenInIsSmall(u: Setup, s: State, now: u32, f: Fragment)
    requires Fit(u) && StateInvariant(s)
    ensures var (t, o) := AddStep(u.cfg, u.sort, now, s, f);
            && (o == Outcome.Accepted || o == Completed ==> 0 < f.totalSize <= u.cfg.maxMessageSize)
            && (o == Outcome.Accepted ==> f.messageId in t.messages && SameParams(t.messages[f.messageId], f))
  {
    if Screen(u.cfg, f) == Outcome.Accepted { TargetShape(u, s, now, f); }
    hide StateInvariant, Sorts, Overwrite, ReceivedCount, Coverage.Accepted, Crc, Fresh, EntryInvariant;
  }

  lemma TargetShape(u: Setup, s: State, now: u32, f: Fragment)
    requires StateInvariant(s) && Screen(u.cfg, f) == Outcome.Accepted
    ensures EntryShape(Target(now, s, f))
  {
    TargetInvariant(u.cfg, now, s, f);
    ShapeOf(Target(now, s, f));
  }

  /** A call adds at most one message to the queue, of a size within the limit. */
  lemma CompletionIsSmall(u: Setup, s: State, now: u32, f: Fragment)
    requires Fit(u) && StateInvariant(s)
    ensures var (t, o) := AddStep(u.cfg, u.sort, now, s, f);
            if o == Completed then
              && |t.completed| == |s.completed| + 1 && t.completed[..|s.completed|] == s.completed
              && 0 < |t.completed[|s.completed|].data| <= u.cfg.maxMessageSize
            else t.completed == s.completed
  {
    if Screen(u.cfg, f) == Outcome.Accepted { TargetShape(u, s, now, f); }
    hide StateInvariant, Sorts, ReceivedCount, Coverage.Accepted, Crc, Fresh, EntryInvariant;
  }

  /** No entry is ever larger than the buffer was told to take. */
  lemma {:induction false} EntriesWithinLimit(u: Setup, events: seq<Event>, id: u32)
    requires Fit(u) && Open(u, events, id)
    ensures var e := Run(u, events).messages[id];
            |e.buffer| == e.totalSize <= u.cfg.maxMessageSize
    decreases |events|
  {
    var s, e := Run(u, Front(events)), Last(events);
    ShapeOf(Run(u, events).messages[id]);
    hide Run, EntryInvariant;
    if e.Arrive? && e.f.messageId == id && Answer(u, events) == Outcome.Accepted {
      TakenInIsSmall(u, s, e.now, e.f);
    } else {
      KeptUnlessAccepted(u, s, e, id);
      EntriesWithinLimit(u, Front(events), id);
    }
  }

  /** Nor is any message ever delivered. */
  lemma {:induction false} DeliveriesWithinLimit(u: Setup, events: seq<Event>)
    requires Fit(u)
    ensures forall m | m in Deliveries(u, events) :: 0 < |m.data| <= u.cfg.maxMessageSize
    decreases |events|
  {
    if |events| > 0 {
      DeliveriesWithinLimit(u, Front(events));
      if Completes(u, events) {
        CompletedPassed(u, events);
        TakenInIsSmall(u, Run(u, Front(events)), Last(events).now, Last(events).f);
      }
      hide Run, FilledEntry, CopiedIn, AddStep;
    }
  }

  // ----- The answer, from the arrivals -----

  /** The last fragment announces the same message as the one that created the open entry. */
  ghost predicate Agrees(u: Setup, events: seq<Event>)
    requires Fit(u) && |events| > 0 && Last(events).Arrive?
  {
    var f := Last(events).f;
    Open(u, Front(events), f.messageId) ==>
      var first := events[Birth(u, Front(events), f.messageId)];
      && first.Arrive?
      && first.f.totalSize == f.totalSize && first.f.count == f.count && first.f.messageCrc == f.messageCrc
  }

  /** Which event brought which index since then. */
  ghost function Before(u: Setup, events: seq<Event>): map<nat, nat>
    requires Fit(u) && |events| > 0 && Last(events).Arrive?
  {
    var id := Last(events).f.messageId;
    if Open(u, Front(events), id) then Sources(u, Front(events), id) else map[]
  }

  ghost function Gathered(u: Setup, events: seq<Event>): map<nat, nat>
    requires Fit(u) && |events| > 0 && Last(events).Arrive?
  {
    Before(u, events)[Last(events).f.index := |events| - 1]
  }

  ghost predicate Whole(u: Setup, events: seq<Event>)
    requires Fit(u) && |events| > 0 && Last(events).Arrive?
  {
    forall k: nat | k < Last(events).f.count :: k in Gathered(u, events)
  }

  ghost function Pieces(u: Setup, events: seq<Event>): seq<nat>
    requires Fit(u) && |events| > 0 && Last(events).Arrive? && Whole(u, events)
  {
    SourceList(Gathered(u, events), Last(events).f.count)
  }

  ghost function OrderOf(u: Setup, rs: seq<Range>): (p: seq<nat>)
    requires Fit(u)
    ensures |p| == |rs| && forall i | 0 <= i < |p| :: p[i] < |rs|
  {
    assert SortOrder(rs, u.sort(rs));
    u.sort(rs)
  }

  /** The payloads, in the order the sort leaves, start where the one before ended. */
  ghost predicate Tiled(u: Setup, events: seq<Event>)
    requires Fit(u) && |events| > 0 && Last(events).Arrive? && Whole(u, events)
  {
    var rs := RangesAt(events, Pieces(u, events));
    Chain(Arrange(rs, OrderOf(u, rs)), Last(events).f.totalSize)
  }

  /** The payloads one after the other. */
  ghost function Joined(u: Setup, events: seq<Event>): seq<byte>
    requires Fit(u) && |events| > 0 && Last(events).Arrive? && Whole(u, events)
  {
    var src := Pieces(u, events);
    Concat(PayloadsInOrder(events, src, OrderOf(u, RangesAt(events, src))))
  }

  /** What the last event, a fragment, must be answered, judged by the arrivals. */
  ghost function Verdict(u: Setup, events: seq<Event>): Outcome
    requires Fit(u) && |events| > 0 && Last(events).Arrive?
  {
    var f := Last(events).f;
    if f.index >= f.count then Rejected(BadIndexOrCount)
    else if !(0 < f.totalSize <= u.cfg.maxMessageSize) then Rejected(BadTotalSize)
    else if f.offset > f.totalSize then Rejected(BadOffset)
    else if f.offset + |f.payload| > f.totalSize then Rejected(OutOfBounds)
    else if !Agrees(u, events) then Rejected(ParamsMismatch)
    else if f.index in Before(u, events) then Duplicate
    else if !Whole(u, events) then Outcome.Accepted
    else if !Tiled(u, events) then Rejected(CoverageInvalid)
    else if Crc(Joined(u, events)) != f.messageCrc then Rejected(MessageCrcMismatch)
    else Completed
  }

  /** The fragment passes the tests that look at nothing but itself. */
  predicate WellFormed(cfg: Config, f: Fragment) {
    && f.index < f.count && 0 < f.totalSize <= cfg.maxMessageSize
    && f.offset + |f.payload| <= f.totalSize
  }

  lemma ScreenedIff(cfg: Config, f: Fragment)
    ensures Screen(cfg, f) == Outcome.Accepted <==> WellFormed(cfg, f)
  {
  }

  lemma ParamsKept(u: Setup, s: State, e: Event, id: u32)
    requires Fit(u) && StateInvariant(s) && id in Step(u, s, e).messages
    ensures var t := Step(u, s, e).messages[id];
            if id in s.messages then
              var was := s.messages[id];
              t.totalSize == was.totalSize && t.fragmentCount == was.fragmentCount && t.messageCrc == was.messageCrc
            else
              e.Arrive? && SameParams(t, e.f)
  {
    hide EntryInvariant, Overwrite, Coverage.Accepted;
  }

  /** An entry keeps the parameters of the fragment that created it. */
  lemma {:induction false} ParamsFromBirth(u: Setup, events: seq<Event>, id: u32)
    requires Fit(u) && Open(u, events, id)
    ensures var first := events[Birth(u, events, id)];
            first.Arrive? && SameParams(Run(u, events).messages[id], first.f)
    decreases |events|
  {
    var before := Front(events);
    if Open(u, before, id) { ParamsFromBirth(u, before, id); }
    ParamsKept(u, Run(u, before), Last(events), id);
    hide Step;
  }

  lemma AgreesIff(u: Setup, events: seq<Event>)
    requires Fit(u) && |events| > 0 && Last(events).Arrive?
    ensures var (now, f, s) := (Last(events).now, Last(events).f, Run(u, Front(events)));
            Agrees(u, events) <==> SameParams(Target(now, s, f), f)
  {
    var id := Last(events).f.messageId;
    if Open(u, Front(events), id) { ParamsFromBirth(u, Front(events), id); }
    hide Run;
  }

  lemma ReceivedIff(events: seq<Event>, id: u32, e: MessageState, src: map<nat, nat>, birth: nat, k: nat)
    requires Sourced(events, id, e, src, birth) && k < |e.fragments|
    ensures e.fragments[k].received <==> k in src
  {
  }

  lemma NothingReceived(now: u32, f: Fragment, k: nat)
    requires k < f.count
    ensures !Fresh(now, f).fragments[k].received
  {
  }

  lemma BeforeIff(u: Setup, events: seq<Event>)
    requires Fit(u) && |events| > 0 && Last(events).Arrive? && WellFormed(u.cfg, Last(events).f) && Agrees(u, events)
    ensures var (now, f, s) := (Last(events).now, Last(events).f, Run(u, Front(events)));
            && f.index < |Target(now, s, f).fragments|
            && (f.index in Before(u, events) <==> Target(now, s, f).fragments[f.index].received)
  {
    var (now, f, s) := (Last(events).now, Last(events).f, Run(u, Front(events)));
    AgreesIff(u, events);
    ScreenedIff(u.cfg, f);
    TargetShape(u, s, now, f);
    hide Run, Sourced, Agrees, Fresh, Sources, Birth, WellFormed, Screen;
    if Open(u, Front(events), f.messageId) {
      EntrySourced(u, Front(events), f.messageId);
      ReceivedIff(Front(events), f.messageId, s.messages[f.messageId], Sources(u, Front(events), f.messageId),
                  Birth(u, Front(events), f.messageId), f.index);
    } else {
      NothingReceived(now, f, f.index);
    }
  }

  /** The three ways a fragment that was copied in can be answered at once. */
  ghost function Closing(u: Setup, g: MessageState): Outcome
    requires Fit(u)
  {
    if !AllReceived(g.fragments) then Outcome.Accepted
    else if !Coverage.Accepted(u.sort, g.fragments, g.totalSize) then Rejected(CoverageInvalid)
    else if Crc(g.buffer) != g.messageCrc then Rejected(MessageCrcMismatch)
    else Completed
  }

  lemma StoredAnswer(u: Setup, s: State, now: u32, f: Fragment)
    requires Fit(u) && StateInvariant(s) && Screen(u.cfg, f) == Outcome.Accepted
    requires SameParams(Target(now, s, f), f)
    requires f.index < |Target(now, s, f).fragments| && !Target(now, s, f).fragments[f.index].received
    ensures EntryShape(Target(now, s, f)) && f.index < Target(now, s, f).fragmentCount
    ensures f.offset + |f.payload| <= Target(now, s, f).totalSize
    ensures var g := Filled(Target(now, s, f), f);
            EntryShape(g) && SameParams(g, f) && AddStep(u.cfg, u.sort, now, s, f).1 == Closing(u, g)
  {
    hide StateInvariant, EntryInvariant, ReceivedCount, Coverage.Accepted, Crc, Sorts, Overwrite, Target;
    TargetInvariant(u.cfg, now, s, f);
    TargetShape(u, s, now, f);
    FilledShape(u.cfg, Target(now, s, f), f);
  }

  /** A well-formed fragment of the message that is not there yet is copied in. */
  lemma Stored(u: Setup, events: seq<Event>)
    requires Fit(u) && |events| > 0 && Last(events).Arrive? && WellFormed(u.cfg, Last(events).f)
    requires Agrees(u, events) && Last(events).f.index !in Before(u, events)
    ensures CopiedIn(u, events)
    ensures var (f, g) := (Last(events).f, FilledEntry(u, events));
            && EntryShape(g) && SameParams(g, f) && Answer(u, events) == Closing(u, g)
            && Sourced(events, f.messageId, g, Gathered(u, events), BirthNow(u, events))
  {
    var (now, f, s) := (Last(events).now, Last(events).f, Run(u, Front(events)));
    ScreenedIff(u.cfg, f);
    AgreesIff(u, events);
    BeforeIff(u, events);
    hide Run, Sourced, Agrees, Sources, Birth, WellFormed, Screen, AddStep, Target, Filled, SameParams;
    StoredAnswer(u, s, now, f);
    CopiedInExplained(u, events);
  }

  lemma WholeIff(u: Setup, events: seq<Event>, g: MessageState, birth: nat)
    requires Fit(u) && |events| > 0 && Last(events).Arrive?
    requires EntryShape(g) && SameParams(g, Last(events).f)
    requires Sourced(events, Last(events).f.messageId, g, Gathered(u, events), birth)
    ensures Whole(u, events) <==> AllReceived(g.fragments)
  {
    hide Gathered;
  }

  lemma TiledIff(u: Setup, events: seq<Event>, g: MessageState, birth: nat)
    requires Fit(u) && |events| > 0 && Last(events).Arrive? && Whole(u, events)
    requires EntryShape(g) && SameParams(g, Last(events).f)
    requires Sourced(events, Last(events).f.messageId, g, Gathered(u, events), birth)
    ensures Tiled(u, events) <==> Coverage.Accepted(u.sort, g.fragments, g.totalSize)
    ensures Tiled(u, events) ==> Joined(u, events) == g.buffer
  {
    var f, m := Last(events).f, Gathered(u, events);
    WholeIff(u, events, g, birth);
    SameRanges(events, f, g, m, birth);
    hide Sourced, Gathered, Chain, AllReceived, Concat, PayloadsInOrder;
    if Tiled(u, events) {
      BufferInOrder(u, events, f, g, m, birth);
    }
  }

  /** Every answer is the verdict on the arrivals. */
  lemma AnswerIsVerdict(u: Setup, events: seq<Event>)
    requires Fit(u) && |events| > 0 && Last(events).Arrive?
    ensures Answer(u, events) == Verdict(u, events)
  {
    var (now, f, s) := (Last(events).now, Last(events).f, Run(u, Front(events)));
    hide Run, Sourced, Agrees, Tiled, Joined, Whole, Coverage.Accepted, Crc, Before, AllReceived, CloseStep;
    if WellFormed(u.cfg, f) {
      ScreenedIff(u.cfg, f);
      AgreesIff(u, events);
      if Agrees(u, events) {
        BeforeIff(u, events);
        if f.index !in Before(u, events) {
          hide Screen, AddStep;
          Stored(u, events);
          WholeIff(u, events, FilledEntry(u, events), BirthNow(u, events));
          if Whole(u, events) { TiledIff(u, events, FilledEntry(u, events), BirthNow(u, events)); }
        }
      }
    }
  }

  // ----- What the answer does -----

  /** Whether an answered fragment's entry is there afterwards. */
  predicate LeavesOpen(answer: Outcome, wasOpen: bool) {
    match answer
    case Accepted => true
    case Duplicate => wasOpen
    case Completed => false
    case Rejected(ParamsMismatch) => false
    case Rejected(CoverageInvalid) => false
    case Rejected(MessageCrcMismatch) => false
    case Rejected(_) => wasOpen
  }

  lemma AnswerDecidesOpen(u: Setup, s: State, now: u32, f: Fragment)
    requires Fit(u) && StateInvariant(s)
    ensures var (t, o) := AddStep(u.cfg, u.sort, now, s, f);
            && (f.messageId in t.messages <==> LeavesOpen(o, f.messageId in s.messages))
            && forall id | id != f.messageId :: id in t.messages <==> id in s.messages
  {
    if Screen(u.cfg, f) == Outcome.Accepted { TargetShape(u, s, now, f); }
    hide StateInvariant, Sorts, EntryInvariant, Overwrite, ReceivedCount, Coverage.Accepted, Crc, Screen;
  }

  lemma CleanupDecidesOpen(u: Setup, events: seq<Event>, id: u32)
    requires Fit(u) && |events| > 0 && Last(events).Cleanup?
    ensures Open(u, events, id) <==>
            && Open(u, Front(events), id)
            && var first := events[Birth(u, Front(events), id)];
               first.Arrive? && Elapsed(Last(events).now, first.now) <= u.cfg.timeoutMs
  {
    if Open(u, Front(events), id) { CreatedAtBirth(u, Front(events), id); }
    hide Elapsed;
  }

  /** An entry is there after an event exactly when the arrivals say so. */
  lemma OpenIsDecided(u: Setup, events: seq<Event>, id: u32)
    requires Fit(u) && |events| > 0
    ensures Open(u, events, id) <==>
            match Last(events)
            case Arrive(_, f) =>
              if f.messageId == id then LeavesOpen(Verdict(u, events), Open(u, Front(events), id))
              else Open(u, Front(events), id)
            case Cleanup(now) =>
              && Open(u, Front(events), id)
              && var first := events[Birth(u, Front(events), id)];
                 first.Arrive? && Elapsed(now, first.now) <= u.cfg.timeoutMs
            case Pop => Open(u, Front(events), id)
  {
    var s, e := Run(u, Front(events)), Last(events);
    if e.Arrive? {
      AnswerIsVerdict(u, events);
      AnswerDecidesOpen(u, s, e.now, e.f);
      hide Verdict, AddStep, LeavesOpen;
    } else if e.Cleanup? {
      CleanupDecidesOpen(u, events, id);
      hide Run, Birth, Elapsed;
    }
  }

  /** A message is delivered exactly when the arrivals say so, and it is what they brought. */
  lemma DeliveryIsDecided(u: Setup, events: seq<Event>)
    requires Fit(u) && |events| > 0
    ensures Deliveries(u, events)
         == if Last(events).Arrive? && Verdict(u, events) == Completed then
              Deliveries(u, Front(events)) + [CompletedMessage(Last(events).f.messageId, Joined(u, events))]
            else Deliveries(u, Front(events))
  {
    hide Run, Answer, Verdict, Joined, FilledEntry, CopiedIn;
    if Last(events).Arrive? {
      AnswerIsVerdict(u, events);
      if Verdict(u, events) == Completed { CompletedIsJoined(u, events); }
    }
  }

  lemma CompletedIsJoined(u: Setup, events: seq<Event>)
    requires Fit(u) && |events| > 0 && Last(events).Arrive? && Verdict(u, events) == Completed
    ensures Whole(u, events) && CopiedIn(u, events) && Joined(u, events) == FilledEntry(u, events).buffer
  {
    hide Run, Answer, FilledEntry, CopiedIn, Agrees, Tiled, Joined, Whole, Before;
    Stored(u, events);
    WholeIff(u, events, FilledEntry(u, events), BirthNow(u, events));
    TiledIff(u, events, FilledEntry(u, events), BirthNow(u, events));
  }
}
