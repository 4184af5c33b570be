/** Whole runs of the reassembly buffer: any mix of fragments, cleanups and pops. */
module ReassemblyRuns {
  import opened CrcSpec
  import opened LittleEndian
  import opened Coverage
  import opened Reassembly

  datatype Event = Arrive(now: u32, f: Fragment) | Cleanup(now: u32) | Pop

  /** The buffer's fixed surroundings: its limits and the sort it is linked with. */
  datatype Setup = Setup(cfg: Config, sort: Sorter)

  ghost predicate Fit(u: Setup) {
    Sorts(u.sort)
  }

  ghost function Step(u: Setup, s: State, e: Event): (r: State)
    requires Fit(u) && StateInvariant(s)
    ensures StateInvariant(r)
  {
    match e
    case Arrive(now, f) => AddKeepsInvariant(u.cfg, u.sort, now, s, f); AddStep(u.cfg, u.sort, now, s, f).0
    case Cleanup(now) => CleanupKeepsInvariant(u.cfg, now, s); CleanupStep(u.cfg, now, s)
    case Pop => s.(completed := if |s.completed| == 0 then [] else s.completed[1..])
  }

  /** The buffer after the events, starting empty. */
  ghost function Run(u: Setup, events: seq<Event>): (s: State)
    requires Fit(u)
    ensures StateInvariant(s)
  {
    if |events| == 0 then State(map[], []) else Step(u, Run(u, Front(events)), Last(events))
  }

  function Front(events: seq<Event>): seq<Event>
    requires |events| > 0
  {
    events[..|events| - 1]
  }

  function Last(events: seq<Event>): Event
    requires |events| > 0
  {
    events[|events| - 1]
  }

  /** What the last event, a fragment, was answered. */
  ghost function Answer(u: Setup, events: seq<Event>): Outcome
    requires Fit(u) && |events| > 0 && Last(events).Arrive?
  {
    var e := Last(events);
    AddStep(u.cfg, u.sort, e.now, Run(u, Front(events)), e.f).1
  }

  ghost predicate Open(u: Setup, events: seq<Event>, id: u32)
    requires Fit(u)
  {
    id in Run(u, events).messages
  }

  // ----- Where the present content of an entry came from -----

  /** The event that created the present entry of an id. */
  ghost function Birth(u: Setup, events: seq<Event>, id: u32): (b: nat)
    requires Fit(u) && Open(u, events, id)
    ensures b < |events|
  {
    if Open(u, Front(events), id) then Birth(u, Front(events), id) else |events| - 1
  }

  /** For each received index of the present entry, the event that delivered it. */
  ghost function Sources(u: Setup, events: seq<Event>, id: u32): map<nat, nat>
    requires Fit(u) && Open(u, events, id)
  {
    var earlier := if Open(u, Front(events), id) then Sources(u, Front(events), id) else map[];
    match Last(events)
    case Arrive(now, f) =>
      if f.messageId == id && Answer(u, events) == Outcome.Accepted then earlier[f.index := |events| - 1] else earlier
    case _ => earlier
  }

  /** Event n delivered index k of an entry with these parameters, at this place. */
  predicate Delivers(events: seq<Event>, n: nat, id: u32, k: nat, e: MessageState, info: FragmentInfo) {
    && n < |events| && events[n].Arrive?
    && var f := events[n].f;
    && f.messageId == id && f.index == k
    && SameParams(e, f)
    && info == FragmentInfo(f.offset, |f.payload|, true)
  }

  /** Byte p of the buffer is what event n has for that place. */
  predicate Writes(events: seq<Event>, n: nat, p: nat, b: byte) {
    && n < |events| && events[n].Arrive?
    && var f := events[n].f;
    && f.offset <= p < f.offset + |f.payload| && f.payload[p - f.offset] == b
  }

  ghost predicate Sourced(events: seq<Event>, id: u32, e: MessageState, src: map<nat, nat>, birth: nat) {
    && (forall k | 0 <= k < |e.fragments| :: e.fragments[k].received <==> k in src)
    && (forall k | k in src ::
          k < |e.fragments| && birth <= src[k] && Delivers(events, src[k], id, k, e, e.fragments[k]))
    && |e.buffer| == e.totalSize
    && (forall k, p: nat | k in src && p < e.totalSize
                           && e.fragments[k].offset <= p < e.fragments[k].offset + e.fragments[k].size ::
          WrittenBySome(events, src, p, e.buffer[p]))
  }

  /** However often a byte was overwritten, what it holds came from one of the accepted fragments. */
  ghost predicate WrittenBySome(events: seq<Event>, src: map<nat, nat>, p: nat, b: byte) {
    exists k :: k in src && Writes(events, src[k], p, b)
  }

  lemma SourcedLater(events: seq<Event>, id: u32, e: MessageState, src: map<nat, nat>, birth: nat)
    requires |events| > 0 && Sourced(Front(events), id, e, src, birth)
    ensures Sourced(events, id, e, src, birth)
  {
  }

  /** Copying one more fragment in: covered bytes keep a source, the new ones get the new event. */
  lemma SourcedFilled(events: seq<Event>, id: u32, e: MessageState, src: map<nat, nat>, birth: nat)
    requires |events| > 0 && Last(events).Arrive? && birth < |events|
    requires var f := Last(events).f;
             && f.messageId == id && SameParams(e, f) && EntryShape(e) && f.index < e.fragmentCount
             && f.offset + |f.payload| <= e.totalSize && f.index !in src
    requires Sourced(events, id, e, src, birth)
    ensures var f := Last(events).f;
            Sourced(events, id, Filled(e, f), src[f.index := |events| - 1], birth)
  {
    var f, n := Last(events).f, |events| - 1;
    var g, dst := Filled(e, f), src[f.index := n];
    forall k | k in dst
      ensures k < |g.fragments| && birth <= dst[k] && Delivers(events, dst[k], id, k, g, g.fragments[k])
    {
      if k != f.index { assert Delivers(events, src[k], id, k, e, e.fragments[k]); }
    }
    forall k, p: nat | k in dst && p < g.totalSize
                       && g.fragments[k].offset <= p < g.fragments[k].offset + g.fragments[k].size
      ensures WrittenBySome(events, dst, p, g.buffer[p])
    {
      if f.offset <= p < f.offset + |f.payload| {
        assert f.index in dst && Writes(events, dst[f.index], p, g.buffer[p]);
      } else {
        assert k in src && WrittenBySome(events, src, p, e.buffer[p]);
        var j :| j in src && Writes(events, src[j], p, e.buffer[p]);
        assert j != f.index && dst[j] == src[j];
      }
    }
  }

  lemma SourcedFresh(events: seq<Event>, id: u32, now: u32, f: Fragment, birth: nat)
    ensures Sourced(events, id, Fresh(now, f), map[], birth)
  {
  }

  /** Only an accepted fragment of its own id changes an entry without removing it. */
  lemma KeptUnlessAccepted(u: Setup, s: State, e: Event, id: u32)
    requires Fit(u) && StateInvariant(s) && id in Step(u, s, e).messages
    requires e.Arrive? && e.f.messageId == id ==> AddStep(u.cfg, u.sort, e.now, s, e.f).1 != Outcome.Accepted
    ensures id in s.messages && Step(u, s, e).messages[id] == s.messages[id]
  {
    hide EntryInvariant, Filled, Fresh;
  }

  /** The entry of an id is always explained by the events since its creation. */
  lemma {:induction false} EntrySourced(u: Setup, events: seq<Event>, id: u32)
    requires Fit(u) && Open(u, events, id)
    ensures Sourced(events, id, Run(u, events).messages[id], Sources(u, events, id), Birth(u, events, id))
    decreases |events|
  {
    var before := Front(events);
    if Open(u, before, id) {
      EntrySourced(u, before, id);
      SourcedLater(events, id, Run(u, before).messages[id], Sources(u, before, id), Birth(u, before, id));
    }
    if Last(events).Arrive? && Last(events).f.messageId == id && Answer(u, events) == Outcome.Accepted {
      ArrivalSourced(u, events, id);
    } else {
      KeptUnlessAccepted(u, Run(u, before), Last(events), id);
      hide Sourced, Run;
    }
  }

  // The last event, a fragment that gets as far as being copied in.

  ghost predicate CopiedIn(u: Setup, events: seq<Event>)
    requires Fit(u)
  {
    && |events| > 0 && Last(events).Arrive?
    && Answer(u, events) in {Outcome.Accepted, Outcome.Completed,
                             Rejected(CoverageInvalid), Rejected(MessageCrcMismatch)}
  }

  ghost function FilledEntry(u: Setup, events: seq<Event>): MessageState
    requires Fit(u) && CopiedIn(u, events)
  {
    var Arrive(now, f) := Last(events);
    var s := Run(u, Front(events));
    TargetInvariant(u.cfg, now, s, f);
    Filled(Target(now, s, f), f)
  }

  ghost function SourcesNow(u: Setup, events: seq<Event>): map<nat, nat>
    requires Fit(u) && CopiedIn(u, events)
  {
    var f := Last(events).f;
    var earlier := if Open(u, Front(events), f.messageId) then Sources(u, Front(events), f.messageId) else map[];
    earlier[f.index := |events| - 1]
  }

  ghost function BirthNow(u: Setup, events: seq<Event>): (b: nat)
    requires Fit(u) && CopiedIn(u, events)
    ensures b < |events|
  {
    var id := Last(events).f.messageId;
    if Open(u, Front(events), id) then Birth(u, Front(events), id) else |events| - 1
  }

  lemma CopiedInSourced(u: Setup, events: seq<Event>)
    requires Fit(u) && CopiedIn(u, events)
    requires var id := Last(events).f.messageId;
             Open(u, Front(events), id) ==>
               Sourced(events, id, Run(u, Front(events)).messages[id], Sources(u, Front(events), id),
                       Birth(u, Front(events), id))
    ensures Sourced(events, Last(events).f.messageId, FilledEntry(u, events),
                    SourcesNow(u, events), BirthNow(u, events))
  {
    hide Sourced, Overwrite;
    var f, now := Last(events).f, Last(events).now;
    var s := Run(u, Front(events));
    TargetInvariant(u.cfg, now, s, f);
    var e := Target(now, s, f);
    if Open(u, Front(events), f.messageId) {
      NotYetSourced(events, f.messageId, e, Sources(u, Front(events), f.messageId), BirthNow(u, events), f.index);
      SourcedFilled(events, f.messageId, e, Sources(u, Front(events), f.messageId), BirthNow(u, events));
    } else {
      SourcedFresh(events, f.messageId, now, f, |events| - 1);
      SourcedFilled(events, f.messageId, e, map[], |events| - 1);
    }
  }

  lemma NotYetSourced(events: seq<Event>, id: u32, e: MessageState, src: map<nat, nat>, birth: nat, k: nat)
    requires Sourced(events, id, e, src, birth) && k < |e.fragments| && !e.fragments[k].received
    ensures k !in src
  {
  }

  lemma ArrivalSourced(u: Setup, events: seq<Event>, id: u32)
    requires Fit(u) && Open(u, events, id) && Last(events).Arrive? && Last(events).f.messageId == id
    requires Answer(u, events) == Outcome.Accepted
    requires Open(u, Front(events), id) ==>
               Sourced(events, id, Run(u, Front(events)).messages[id], Sources(u, Front(events), id),
                       Birth(u, Front(events), id))
    ensures Sourced(events, id, Run(u, events).messages[id], Sources(u, events, id), Birth(u, events, id))
  {
    CopiedInSourced(u, events);
    hide Sourced, Overwrite, Fresh, Filled, EntryInvariant;
  }

  // ----- Since when, and that each source was accepted -----

  ghost predicate OpenThroughout(u: Setup, events: seq<Event>, id: u32, from: nat, to: nat)
    requires Fit(u) && to <= |events|
  {
    forall m | from < m <= to :: Open(u, events[..m], id)
  }

  lemma OpenThroughoutLonger(u: Setup, events: seq<Event>, id: u32, from: nat)
    requires Fit(u) && |events| > 0 && Open(u, events, id)
    requires OpenThroughout(u, Front(events), id, from, |events| - 1)
    ensures OpenThroughout(u, events, id, from, |events|)
  {
    hide Run;
    forall m | from < m <= |events| ensures Open(u, events[..m], id) {
      if m < |events| {
        assert Front(events)[..m] == events[..m];
      } else {
        assert events[..m] == events;
      }
    }
  }

  lemma OpenThroughoutShorter(u: Setup, events: seq<Event>, id: u32, from: nat)
    requires Fit(u) && |events| > 0
    requires OpenThroughout(u, Front(events), id, from, |events| - 1)
    ensures OpenThroughout(u, events, id, from, |events| - 1)
  {
    hide Run;
    forall m | from < m <= |events| - 1 ensures Open(u, events[..m], id) {
      assert Front(events)[..m] == events[..m];
    }
  }

  lemma OpenFromLast(u: Setup, events: seq<Event>, id: u32)
    requires Fit(u) && |events| > 0 && !Open(u, Front(events), id) && Open(u, events, id)
    ensures !Open(u, events[..|events| - 1], id)
    ensures OpenThroughout(u, events, id, |events| - 1, |events|)
  {
    hide Run;
    assert events[..|events|] == events;
  }

  lemma {:induction false} BirthIsCreation(u: Setup, events: seq<Event>, id: u32)
    requires Fit(u) && Open(u, events, id)
    ensures !Open(u, events[..Birth(u, events, id)], id)
    ensures OpenThroughout(u, events, id, Birth(u, events, id), |events|)
    decreases |events|
  {
    assert |events| > 0;
    hide Run, OpenThroughout, Open, Fit;
    var before, b := Front(events), Birth(u, events, id);
    if Open(u, before, id) {
      BirthIsCreation(u, before, id);
      assert before[..b] == events[..b];
      OpenThroughoutLonger(u, events, id, b);
    } else {
      OpenFromLast(u, events, id);
    }
  }

  ghost predicate AnsweredAt(u: Setup, events: seq<Event>, n: nat, o: Outcome)
    requires Fit(u)
  {
    n < |events| && events[n].Arrive? && Last(events[..n + 1]).Arrive? && Answer(u, events[..n + 1]) == o
  }

  lemma AnsweredLater(u: Setup, events: seq<Event>, n: nat, o: Outcome)
    requires Fit(u) && |events| > 0 && AnsweredAt(u, Front(events), n, o)
    ensures AnsweredAt(u, events, n, o)
  {
    hide Answer;
    assert Front(events)[..n + 1] == events[..n + 1];
  }

  lemma AnsweredLast(u: Setup, events: seq<Event>)
    requires Fit(u) && |events| > 0 && Last(events).Arrive?
    ensures AnsweredAt(u, events, |events| - 1, Answer(u, events))
  {
    assert events[..|events|] == events;
  }

  lemma {:induction false} SourceAccepted(u: Setup, events: seq<Event>, id: u32, k: nat)
    requires Fit(u) && Open(u, events, id) && k in Sources(u, events, id)
    ensures AnsweredAt(u, events, Sources(u, events, id)[k], Outcome.Accepted)
    decreases |events|
  {
    assert |events| > 0;
    hide Answer, Run, Step, AnsweredAt;
    var before, n := Front(events), Sources(u, events, id)[k];
    if Open(u, before, id) && k in Sources(u, before, id) && Sources(u, before, id)[k] == n {
      SourceAccepted(u, before, id, k);
      AnsweredLater(u, events, n, Outcome.Accepted);
    } else {
      AnsweredLast(u, events);
    }
  }

  // ----- What a completed message is made of -----

  /** g is index k of the same message as f, with the same size, count and message CRC. */
  predicate SameMessage(g: Fragment, f: Fragment, k: nat) {
    && g.messageId == f.messageId && g.index == k
    && g.count == f.count && g.totalSize == f.totalSize && g.messageCrc == f.messageCrc
  }

  function RangeAt(events: seq<Event>, n: nat): Range {
    if n < |events| && events[n].Arrive? then Range(events[n].f.offset, |events[n].f.payload|) else Range(0, 0)
  }

  function PayloadAt(events: seq<Event>, n: nat): seq<byte> {
    if n < |events| && events[n].Arrive? then events[n].f.payload else []
  }

  function RangesAt(events: seq<Event>, src: seq<nat>): (r: seq<Range>)
    ensures |r| == |src| && forall k | 0 <= k < |src| :: r[k] == RangeAt(events, src[k])
  {
    seq(|src|, k requires 0 <= k < |src| => RangeAt(events, src[k]))
  }

  function Concat(parts: seq<seq<byte>>): seq<byte> {
    if |parts| == 0 then [] else Concat(parts[..|parts| - 1]) + parts[|parts| - 1]
  }

  function PayloadsInOrder(events: seq<Event>, src: seq<nat>, order: seq<nat>): (r: seq<seq<byte>>)
    requires forall i | 0 <= i < |order| :: order[i] < |src|
    ensures |r| == |order| && forall i | 0 <= i < |order| :: r[i] == PayloadAt(events, src[order[i]])
  {
    seq(|order|, i requires 0 <= i < |order| => PayloadAt(events, src[order[i]]))
  }

  /** src names, for each index of the message that the last event f completed, the one event whose
      payload was accepted for it; all of them since the entry was created by event birth. */
  ghost predicate OneSourcePerIndex(u: Setup, events: seq<Event>, f: Fragment, src: seq<nat>, birth: nat)
    requires Fit(u)
  {
    && |src| == f.count
    && birth < |events|
    && !Open(u, events[..birth], f.messageId)
    && OpenThroughout(u, events, f.messageId, birth, |events| - 1)
    && forall k | 0 <= k < |src| :: SourceFor(u, events, f, birth, k, src[k])
  }

  /** Event n is no older than birth, brought index k of f's message and was accepted; the last
      event completed the message. */
  ghost predicate SourceFor(u: Setup, events: seq<Event>, f: Fragment, birth: nat, k: nat, n: nat)
    requires Fit(u)
  {
    && birth <= n < |events| && events[n].Arrive?
    && SameMessage(events[n].f, f, k)
    && AnsweredAt(u, events, n, if n == |events| - 1 then Completed else Outcome.Accepted)
  }

  /** The delivered data: the payloads tile it, it is their concatenation in offset order, and it
      carries the CRC the sender announced. */
  ghost predicate Assembled(events: seq<Event>, f: Fragment, src: seq<nat>, data: seq<byte>) {
    && |data| == f.totalSize
    && ExactCover(RangesAt(events, src), |data|)
    && Crc(data) == f.messageCrc
    && exists order :: SortOrder(RangesAt(events, src), order) && data == Concat(PayloadsInOrder(events, src, order))
  }

  function EndBefore(a: seq<Range>, i: nat): nat
    requires i <= |a|
  {
    if i == 0 then 0 else a[i - 1].End()
  }

  lemma ChainLink(a: seq<Range>, total: nat, i: nat)
    requires Chain(a, total) && i < |a|
    ensures a[i].off == EndBefore(a, i) && a[i].off <= a[i].End() <= total
    ensures EndBefore(a, |a|) == total
  {
    ChainIsExact(a, total);
    if i > 0 { assert a[i].off == a[i - 1].End(); }
  }

  lemma {:induction false} ConcatFollowsChain(a: seq<Range>, parts: seq<seq<byte>>, data: seq<byte>, i: nat)
    requires Chain(a, |data|) && |parts| == |a| && i <= |a|
    requires forall k | 0 <= k < |a| :: a[k].End() <= |data| && data[a[k].off..a[k].End()] == parts[k]
    ensures EndBefore(a, i) <= |data| && Concat(parts[..i]) == data[..EndBefore(a, i)]
    decreases i
  {
    if i > 0 {
      ConcatFollowsChain(a, parts, data, i - 1);
      ChainLink(a, |data|, i - 1);
      hide Chain, Concat;
      ConcatLast(parts, i);
      var r := a[i - 1];
      assert data[..r.End()] == data[..r.off] + data[r.off..r.End()];
    }
  }

  lemma ConcatLast(parts: seq<seq<byte>>, i: nat)
    requires 0 < i <= |parts|
    ensures Concat(parts[..i]) == Concat(parts[..i - 1]) + parts[i - 1]
  {
    assert parts[..i][..i - 1] == parts[..i - 1];
  }

  lemma OnlyOwner(rs: seq<Range>, total: nat, j: nat, k: nat, p: nat)
    requires ExactCover(rs, total) && j < |rs| && k < |rs| && rs[j].Covers(p) && rs[k].Covers(p)
    ensures j == k
  {
  }

  /** With the ranges apart, the source a byte came from is the fragment it belongs to. */
  lemma BytesAreTheirOwn(events: seq<Event>, id: u32, e: MessageState, m: map<nat, nat>, birth: nat, k: nat)
    requires Sourced(events, id, e, m, birth) && EntryShape(e) && k < e.fragmentCount && k in m
    requires ExactCover(RangesOf(e.fragments), e.totalSize)
    ensures e.buffer[e.fragments[k].offset..e.fragments[k].offset + e.fragments[k].size] == PayloadAt(events, m[k])
  {
    var rs := RangesOf(e.fragments);
    var f := events[m[k]].f;
    assert Delivers(events, m[k], id, k, e, e.fragments[k]);
    assert rs[k].End() <= e.totalSize;
    forall p: nat | f.offset <= p < f.offset + |f.payload| ensures e.buffer[p] == f.payload[p - f.offset] {
      assert WrittenBySome(events, m, p, e.buffer[p]);
      var j :| j in m && Writes(events, m[j], p, e.buffer[p]);
      assert Delivers(events, m[j], id, j, e, e.fragments[j]);
      assert rs[k].Covers(p) && rs[j].Covers(p);
      OnlyOwner(rs, e.totalSize, j, k, p);
    }
  }

  function SourceList(m: map<nat, nat>, n: nat): (r: seq<nat>)
    requires forall k: nat | k < n :: k in m
    ensures |r| == n && forall k | 0 <= k < n :: r[k] == m[k]
  {
    seq(n, k requires 0 <= k < n => m[k])
  }

  lemma CompletedPassed(u: Setup, events: seq<Event>)
    requires Fit(u) && |events| > 0 && Last(events).Arrive? && Answer(u, events) == Completed
    ensures CopiedIn(u, events)
    ensures var (e, f) := (FilledEntry(u, events), Last(events).f);
            && EntryShape(e) && SameParams(e, f) && AllReceived(e.fragments)
            && Coverage.Accepted(u.sort, e.fragments, e.totalSize) && Crc(e.buffer) == e.messageCrc
            && Run(u, events).completed == Run(u, Front(events)).completed + [CompletedMessage(f.messageId, e.buffer)]
  {
    var Arrive(now, f) := Last(events);
    var s := Run(u, Front(events));
    TargetInvariant(u.cfg, now, s, f);
    FilledShape(u.cfg, Target(now, s, f), f);
    hide Fresh, Overwrite, EntryInvariant, Crc, Coverage.Accepted;
  }

  lemma CopiedInExplained(u: Setup, events: seq<Event>)
    requires Fit(u) && CopiedIn(u, events)
    ensures Sourced(events, Last(events).f.messageId, FilledEntry(u, events),
                    SourcesNow(u, events), BirthNow(u, events))
  {
    var id, before := Last(events).f.messageId, Front(events);
    if Open(u, before, id) {
      EntrySourced(u, before, id);
      hide Sourced, Run, CopiedIn;
      SourcedLater(events, id, Run(u, before).messages[id], Sources(u, before, id), Birth(u, before, id));
    }
    CopiedInSourced(u, events);
  }

  lemma CopiedInSince(u: Setup, events: seq<Event>)
    requires Fit(u) && CopiedIn(u, events)
    ensures var (id, b) := (Last(events).f.messageId, BirthNow(u, events));
            !Open(u, events[..b], id) && OpenThroughout(u, events, id, b, |events| - 1)
  {
    var id, before, b := Last(events).f.messageId, Front(events), BirthNow(u, events);
    hide Run, CopiedIn;
    if Open(u, before, id) {
      BirthIsCreation(u, before, id);
      OpenThroughoutShorter(u, events, id, b);
      assert before[..b] == events[..b];
    } else {
      assert events[..b] == before;
    }
  }

  lemma CompletionSource(u: Setup, events: seq<Event>, k: nat)
    requires Fit(u) && |events| > 0 && Last(events).Arrive? && Answer(u, events) == Completed
    requires CopiedIn(u, events) && k in SourcesNow(u, events)
    ensures AnsweredAt(u, events, SourcesNow(u, events)[k],
                       if SourcesNow(u, events)[k] == |events| - 1 then Completed else Outcome.Accepted)
  {
    var id, before := Last(events).f.messageId, Front(events);
    hide Run, CopiedIn, Answer, AnsweredAt;
    if k == Last(events).f.index {
      AnsweredLast(u, events);
    } else {
      SourceAccepted(u, before, id, k);
      SourceEarlier(u, before, id, k);
      AnsweredLater(u, events, Sources(u, before, id)[k], Outcome.Accepted);
    }
  }

  lemma SourceEarlier(u: Setup, events: seq<Event>, id: u32, k: nat)
    requires Fit(u) && Open(u, events, id) && k in Sources(u, events, id)
    ensures Sources(u, events, id)[k] < |events|
  {
  }

  lemma SourceOf(events: seq<Event>, f: Fragment, e: MessageState, m: map<nat, nat>, birth: nat, k: nat)
    requires Sourced(events, f.messageId, e, m, birth) && EntryShape(e) && SameParams(e, f)
    requires AllReceived(e.fragments) && k < f.count
    ensures k in m && birth <= m[k] < |events| && events[m[k]].Arrive? && SameMessage(events[m[k]].f, f, k)
  {
  }

  lemma CompletionSourceFor(u: Setup, events: seq<Event>, k: nat)
    requires Fit(u) && |events| > 0 && Last(events).Arrive? && Answer(u, events) == Completed
    requires CopiedIn(u, events) && k < Last(events).f.count
    ensures k in SourcesNow(u, events)
    ensures SourceFor(u, events, Last(events).f, BirthNow(u, events), k, SourcesNow(u, events)[k])
  {
    CompletedPassed(u, events);
    CopiedInExplained(u, events);
    var f, m, b, e := Last(events).f, SourcesNow(u, events), BirthNow(u, events), FilledEntry(u, events);
    hide Run, Answer, FilledEntry, BirthNow, SourcesNow, AnsweredAt, CopiedIn, Sourced, SameMessage, Fit, AllReceived;
    SourceOf(events, f, e, m, b, k);
    CompletionSource(u, events, k);
  }

  lemma CompletedOnce(u: Setup, events: seq<Event>)
    requires Fit(u) && |events| > 0 && Last(events).Arrive? && Answer(u, events) == Completed
    ensures CopiedIn(u, events)
    ensures forall k: nat | k < Last(events).f.count :: k in SourcesNow(u, events)
    ensures OneSourcePerIndex(u, events, Last(events).f,
                              SourceList(SourcesNow(u, events), Last(events).f.count), BirthNow(u, events))
  {
    CompletedPassed(u, events);
    CopiedInSince(u, events);
    hide Run, Answer, OpenThroughout, FilledEntry, BirthNow, SourcesNow, SourceFor, Open, CopiedIn, Fit, AllReceived;
    var f := Last(events).f;
    forall k: nat | k < f.count
      ensures k in SourcesNow(u, events) && SourceFor(u, events, f, BirthNow(u, events), k, SourcesNow(u, events)[k])
    {
      CompletionSourceFor(u, events, k);
    }
  }

  /** Safety, for any fragments however inconsistent or overlapping: a completed message is the
      concatenation, in offset order, of exactly one accepted payload per index, all accepted since
      its entry was created and all of the same message; they tile it and carry its CRC. */
  lemma CompletedIsAssembled(u: Setup, events: seq<Event>)
    requires Fit(u) && |events| > 0 && Last(events).Arrive? && Answer(u, events) == Completed
    ensures exists data, src, birth ::
              && Run(u, events).completed
                 == Run(u, Front(events)).completed + [CompletedMessage(Last(events).f.messageId, data)]
              && OneSourcePerIndex(u, events, Last(events).f, src, birth)
              && Assembled(events, Last(events).f, src, data)
  {
    CompletedPassed(u, events);
    CopiedInExplained(u, events);
    CompletedOnce(u, events);
    var f, m, b, e := Last(events).f, SourcesNow(u, events), BirthNow(u, events), FilledEntry(u, events);
    var src := SourceList(m, f.count);
    hide Run, Answer, FilledEntry, BirthNow, SourcesNow, CopiedIn, Fit, Sourced, AllReceived;
    SourcedAssembled(u, events, f, e, m, b);
    assert OneSourcePerIndex(u, events, f, src, b) && Assembled(events, f, src, e.buffer);
  }

  lemma SourcedAssembled(u: Setup, events: seq<Event>, f: Fragment, e: MessageState, m: map<nat, nat>, birth: nat)
    requires Fit(u) && Sourced(events, f.messageId, e, m, birth) && EntryShape(e) && SameParams(e, f)
    requires Coverage.Accepted(u.sort, e.fragments, e.totalSize) && Crc(e.buffer) == e.messageCrc
    requires forall k: nat | k < f.count :: k in m
    ensures Assembled(events, f, SourceList(m, f.count), e.buffer)
  {
    var rs, src := RangesOf(e.fragments), SourceList(m, f.count);
    AcceptedIsExact(u.sort, e.fragments, e.totalSize);
    SameRanges(events, f, e, m, birth);
    var order := u.sort(rs);
    assert SortOrder(rs, order);
    BufferInOrder(u, events, f, e, m, birth);
  }

  lemma SameRanges(events: seq<Event>, f: Fragment, e: MessageState, m: map<nat, nat>, birth: nat)
    requires Sourced(events, f.messageId, e, m, birth) && EntryShape(e) && SameParams(e, f)
    requires forall k: nat | k < f.count :: k in m
    ensures RangesAt(events, SourceList(m, f.count)) == RangesOf(e.fragments)
  {
  }

  lemma BufferInOrder(u: Setup, events: seq<Event>, f: Fragment, e: MessageState, m: map<nat, nat>, birth: nat)
    requires Fit(u) && Sourced(events, f.messageId, e, m, birth) && EntryShape(e) && SameParams(e, f)
    requires forall k: nat | k < f.count :: k in m
    requires Coverage.Accepted(u.sort, e.fragments, e.totalSize)
    ensures SortOrder(RangesOf(e.fragments), u.sort(RangesOf(e.fragments)))
    ensures e.buffer == Concat(PayloadsInOrder(events, SourceList(m, f.count), u.sort(RangesOf(e.fragments))))
  {
    hide ExactCover, SortOrder, Sourced, Concat, EndBefore, Chain, Fit, AllReceived, PayloadAt, PayloadsInOrder,
         SourceList, Coverage.Accepted, Permutation;
    var rs, src := RangesOf(e.fragments), SourceList(m, f.count);
    var order := u.sort(rs);
    SortedChain(u, e.fragments, e.totalSize);
    AcceptedIsExact(u.sort, e.fragments, e.totalSize);
    var a, parts := Arrange(rs, order), PayloadsInOrder(events, src, order);
    forall i | 0 <= i < |a| ensures a[i].End() <= |e.buffer| && e.buffer[a[i].off..a[i].End()] == parts[i] {
      ChainLink(a, |e.buffer|, i);
      OwnBytes(events, f, e, m, birth, order[i]);
    }
    ConcatFollowsChain(a, parts, e.buffer, |a|);
    NonEmptyChain(a, |e.buffer|);
    ChainLink(a, |e.buffer|, 0);
    assert parts[..|a|] == parts;
  }

  lemma SortedChain(u: Setup, frags: seq<FragmentInfo>, total: nat)
    requires Fit(u) && Coverage.Accepted(u.sort, frags, total)
    ensures Sorts(u.sort)
    ensures var (rs, order) := (RangesOf(frags), u.sort(RangesOf(frags)));
            && SortOrder(rs, order) && |order| == |rs| && (forall i | 0 <= i < |order| :: order[i] < |rs|)
            && Chain(Arrange(rs, order), total)
  {
    var rs := RangesOf(frags);
    assert SortOrder(rs, u.sort(rs));
    hide Chain;
  }

  lemma OwnBytes(events: seq<Event>, f: Fragment, e: MessageState, m: map<nat, nat>, birth: nat, k: nat)
    requires Sourced(events, f.messageId, e, m, birth) && EntryShape(e) && k < e.fragmentCount && k in m
    requires ExactCover(RangesOf(e.fragments), e.totalSize)
    ensures var r := RangesOf(e.fragments)[k];
            r.End() <= |e.buffer| && e.buffer[r.off..r.End()] == PayloadAt(events, m[k])
  {
    BytesAreTheirOwn(events, f.messageId, e, m, birth, k);
    hide Sourced;
  }

  lemma NonEmptyChain(a: seq<Range>, total: nat)
    requires Chain(a, total)
    ensures |a| > 0
  {
  }
}
