/** The reassembly buffer: partially filled messages by id, and the queue of completed ones. */
module Reassembly {
  import opened CrcSpec
  import opened LittleEndian
  import opened Coverage
  import UdpCommon

  datatype Config = Config(maxMessageSize: nat, timeoutMs: u32)

  datatype CompletedMessage = CompletedMessage(messageId: u32, data: seq<byte>)

  /** One data fragment as the parser hands it over. */
  datatype Fragment = Fragment(
    messageId: u32, index: u16, count: u16, totalSize: u32, offset: u32, messageCrc: bv32, payload: seq<byte>)

  datatype DropReason =
    BadIndexOrCount | BadTotalSize | BadOffset | OutOfBounds | ParamsMismatch | CoverageInvalid | MessageCrcMismatch

  datatype Outcome = Accepted | Completed | Duplicate | Rejected(reason: DropReason)

  datatype MessageState = MessageState(
    createdAtMs: u32, totalSize: u32, fragmentCount: u16, messageCrc: bv32,
    buffer: seq<byte>, fragments: seq<FragmentInfo>, receivedCount: u16)

  /** What a map lookup of an unknown id inserts. */
  const EMPTY_STATE := MessageState(0, 0, 0, 0, [], [], 0)

  datatype State = State(messages: map<u32, MessageState>, completed: seq<CompletedMessage>)

  // ----- The shape of an entry between calls -----

  function ReceivedCount(frags: seq<FragmentInfo>): (n: nat)
    ensures n <= |frags|
    ensures n == |frags| <==> AllReceived(frags)
  {
    if |frags| == 0 then 0
    else ReceivedCount(frags[..|frags| - 1]) + (if frags[|frags| - 1].received then 1 else 0)
  }

  predicate EntryShape(e: MessageState) {
    0 < |e.buffer| == e.totalSize && |e.fragments| == e.fragmentCount
  }

  /** Every entry an operation leaves behind: it counts its received flags, it is not complete, so
      the 16-bit counter has room, and every received fragment lies within the message. */
  predicate EntryInvariant(e: MessageState) {
    && EntryShape(e)
    && e.receivedCount == ReceivedCount(e.fragments) < e.fragmentCount
    && forall k | 0 <= k < |e.fragments| && e.fragments[k].received ::
         e.fragments[k].offset + e.fragments[k].size <= e.totalSize
  }

  ghost predicate StateInvariant(s: State) {
    forall id | id in s.messages :: EntryInvariant(s.messages[id])
  }

  // ----- One call, as a function of the state before it -----

  function Overwrite(buffer: seq<byte>, offset: nat, payload: seq<byte>): (r: seq<byte>)
    requires offset + |payload| <= |buffer|
    ensures |r| == |buffer|
    ensures forall p | 0 <= p < |r| ::
              r[p] == if offset <= p < offset + |payload| then payload[p - offset] else buffer[p]
  {
    buffer[..offset] + payload + buffer[offset + |payload|..]
  }

  /** The tests made before the table is touched. */
  function Screen(cfg: Config, f: Fragment): Outcome {
    if f.count == 0 || f.index >= f.count then Rejected(BadIndexOrCount)
    else if f.totalSize == 0 || f.totalSize > cfg.maxMessageSize then Rejected(BadTotalSize)
    else if f.offset > f.totalSize then Rejected(BadOffset)
    else if f.offset + |f.payload| > f.totalSize then Rejected(OutOfBounds)
    else Accepted
  }

  function Fresh(now: u32, f: Fragment): MessageState {
    MessageState(now, f.totalSize, f.count, f.messageCrc,
                 seq(f.totalSize, _ => 0), seq(f.count, _ => FragmentInfo(0, 0, false)), 0)
  }

  predicate SameParams(e: MessageState, f: Fragment) {
    e.totalSize == f.totalSize && e.fragmentCount == f.count && e.messageCrc == f.messageCrc
  }

  /** The entry the fragment goes to: the one in the table, or a new one. */
  function Target(now: u32, s: State, f: Fragment): MessageState {
    if f.messageId in s.messages then s.messages[f.messageId] else Fresh(now, f)
  }

  /** The entry with the fragment copied in and counted. */
  function Filled(e: MessageState, f: Fragment): MessageState
    requires EntryShape(e) && f.index < e.fragmentCount && f.offset + |f.payload| <= e.totalSize
  {
    e.(buffer := Overwrite(e.buffer, f.offset, f.payload),
       fragments := e.fragments[f.index := FragmentInfo(f.offset, |f.payload|, true)],
       receivedCount := (e.receivedCount + 1) % 0x1_0000)
  }

  ghost function CloseStep(sort: Sorter, s: State, id: u32): (State, Outcome)
    requires Sorts(sort) && id in s.messages
  {
    var g := s.messages[id];
    var others := s.messages - {id};
    if !Coverage.Accepted(sort, g.fragments, g.totalSize) then
      (s.(messages := others), Rejected(CoverageInvalid))
    else if Crc(g.buffer) != g.messageCrc then
      (s.(messages := others), Rejected(MessageCrcMismatch))
    else
      (State(others, s.completed + [CompletedMessage(id, g.buffer)]), Completed)
  }

  /** The rest of the call once the fragment has passed the screen. */
  ghost function StoreStep(cfg: Config, sort: Sorter, now: u32, s: State, f: Fragment): (State, Outcome)
    requires Sorts(sort) && StateInvariant(s) && Screen(cfg, f) == Accepted
  {
    var e := Target(now, s, f);
    if !SameParams(e, f) then
      (s.(messages := s.messages - {f.messageId}), Rejected(ParamsMismatch))
    else if e.fragments[f.index].received then
      (s, Duplicate)
    else
      var g := Filled(e, f);
      var next := s.(messages := s.messages[f.messageId := g]);
      if g.receivedCount < g.fragmentCount then (next, Accepted) else CloseStep(sort, next, f.messageId)
  }

  ghost function AddStep(cfg: Config, sort: Sorter, now: u32, s: State, f: Fragment): (State, Outcome)
    requires Sorts(sort) && StateInvariant(s)
  {
    if Screen(cfg, f) != Accepted then (s, Screen(cfg, f)) else StoreStep(cfg, sort, now, s, f)
  }

  /** 32-bit subtraction of clock readings. */
  function Elapsed(now: u32, since: u32): u32 {
    (now - since) % 0x1_0000_0000
  }

  function Expired(cfg: Config, now: u32, e: MessageState): bool {
    Elapsed(now, e.createdAtMs) > cfg.timeoutMs
  }

  function CleanupStep(cfg: Config, now: u32, s: State): State {
    s.(messages := map id | id in s.messages && !Expired(cfg, now, s.messages[id]) :: s.messages[id])
  }

  // ----- Every operation keeps the invariant -----

  lemma {:induction false} CountOne(frags: seq<FragmentInfo>, i: nat, g: FragmentInfo)
    requires i < |frags| && !frags[i].received && g.received
    ensures ReceivedCount(frags[i := g]) == ReceivedCount(frags) + 1
  {
    var n := |frags| - 1;
    if i < n {
      CountOne(frags[..n], i, g);
      assert frags[i := g][..n] == frags[..n][i := g];
    } else {
      assert frags[i := g][..n] == frags[..n];
    }
  }

  lemma {:induction false} CountNone(n: nat)
    ensures ReceivedCount(seq(n, _ => FragmentInfo(0, 0, false))) == 0
  {
    var s := seq(n, _ => FragmentInfo(0, 0, false));
    if n > 0 {
      CountNone(n - 1);
      assert s[..n - 1] == seq(n - 1, _ => FragmentInfo(0, 0, false));
    }
  }

  lemma FreshInvariant(cfg: Config, now: u32, f: Fragment)
    requires Screen(cfg, f) == Accepted
    ensures EntryInvariant(Fresh(now, f)) && SameParams(Fresh(now, f), f)
  {
    CountNone(f.count);
  }

  lemma FilledShape(cfg: Config, e: MessageState, f: Fragment)
    requires Screen(cfg, f) == Accepted && EntryInvariant(e) && SameParams(e, f) && !e.fragments[f.index].received
    ensures var g := Filled(e, f);
            && EntryShape(g)
            && g.receivedCount == ReceivedCount(g.fragments) == e.receivedCount + 1 <= g.fragmentCount
            && (g.receivedCount < g.fragmentCount ==> EntryInvariant(g))
  {
    CountOne(e.fragments, f.index, FragmentInfo(f.offset, |f.payload|, true));
  }

  lemma TargetInvariant(cfg: Config, now: u32, s: State, f: Fragment)
    requires Screen(cfg, f) == Accepted && StateInvariant(s)
    ensures EntryInvariant(Target(now, s, f))
    ensures f.messageId !in s.messages ==> SameParams(Target(now, s, f), f)
  {
    hide EntryInvariant;
    FreshInvariant(cfg, now, f);
  }

  lemma ShapeOf(e: MessageState)
    requires EntryInvariant(e)
    ensures EntryShape(e)
  {
  }

  lemma AddKeepsInvariant(cfg: Config, sort: Sorter, now: u32, s: State, f: Fragment)
    requires Sorts(sort) && StateInvariant(s)
    ensures StateInvariant(AddStep(cfg, sort, now, s, f).0)
  {
    if Screen(cfg, f) == Accepted {
      hide EntryInvariant, Filled, Fresh, ReceivedCount, Coverage.Accepted;
      TargetInvariant(cfg, now, s, f);
      var e := Target(now, s, f);
      ShapeOf(e);
      if SameParams(e, f) && !e.fragments[f.index].received {
        FilledShape(cfg, e, f);
      }
    }
  }

  lemma CleanupKeepsInvariant(cfg: Config, now: u32, s: State)
    requires StateInvariant(s)
    ensures StateInvariant(CleanupStep(cfg, now, s))
  {
  }

  class ReassemblyBuffer {
    const config: Config
    const sort: Sorter
    var messages: map<u32, MessageState>
    var completed: seq<CompletedMessage>

    ghost function Contents(): State
      reads this
    {
      State(messages, completed)
    }

    ghost predicate Valid()
      reads this
    {
      Sorts(sort) && StateInvariant(Contents())
    }

    constructor (config: Config, sort: Sorter)
      requires Sorts(sort)
      ensures Valid() && Contents() == State(map[], [])
      ensures this.config == config && this.sort == sort
    {
      this.config := config;
      this.sort := sort;
      messages := map[];
      completed := [];
    }

    method AddFragment(now: u32, f: Fragment) returns (outcome: Outcome)
      requires Valid()
      modifies this
      ensures Valid()
      ensures (Contents(), outcome) == AddStep(config, sort, now, old(Contents()), f)
    {
      AddKeepsInvariant(config, sort, now, Contents(), f);
      hide StateInvariant, Sorts, StoreStep;
      if f.count == 0 || f.index >= f.count {
        return Rejected(BadIndexOrCount);
      }
      if f.totalSize == 0 || f.totalSize > config.maxMessageSize {
        return Rejected(BadTotalSize);
      }
      if f.offset > f.totalSize {
        return Rejected(BadOffset);
      }
      if f.offset + |f.payload| > f.totalSize {
        return Rejected(OutOfBounds);
      }
      outcome := Store(now, f);
    }

    /** Finds or creates the entry, copies the fragment in and closes the entry when it is full. */
    method Store(now: u32, f: Fragment) returns (outcome: Outcome)
      requires Valid() && Screen(config, f) == Accepted
      modifies this
      ensures (Contents(), outcome) == StoreStep(config, sort, now, old(Contents()), f)
    {
      hide StateInvariant, EntryInvariant, Sorts, CloseStep, Overwrite, ReceivedCount;
      TargetInvariant(config, now, Contents(), f);
      ghost var target := Target(now, Contents(), f);
      ShapeOf(target);
      var state := if f.messageId in messages then messages[f.messageId] else EMPTY_STATE;
      if |state.buffer| == 0 {
        state := state.(createdAtMs := now, totalSize := f.totalSize, fragmentCount := f.count,
                        messageCrc := f.messageCrc);
        state := state.(buffer := seq(f.totalSize, _ => 0),
                        fragments := seq(f.count, _ => FragmentInfo(0, 0, false)));
      } else {
        if state.totalSize != f.totalSize || state.fragmentCount != f.count || state.messageCrc != f.messageCrc {
          messages := messages - {f.messageId};
          return Rejected(ParamsMismatch);
        }
      }
      assert state == target;
      if state.fragments[f.index].received {
        return Duplicate;
      }
      state := state.(buffer := Overwrite(state.buffer, f.offset, f.payload));
      state := state.(fragments := state.fragments[f.index := FragmentInfo(f.offset, |f.payload|, true)]);
      state := state.(receivedCount := (state.receivedCount + 1) % 0x1_0000);
      FilledShape(config, target, f);
      messages := messages[f.messageId := state];
      if state.receivedCount == state.fragmentCount {
        outcome := CloseEntry(f.messageId);
        return;
      }
      return Accepted;
    }

    /** The checks on a message all of whose fragments have arrived; its entry goes either way. */
    method CloseEntry(id: u32) returns (outcome: Outcome)
      requires Sorts(sort) && id in messages
      modifies this
      ensures (Contents(), outcome) == CloseStep(sort, old(Contents()), id)
    {
      hide Crc;
      var state := messages[id];
      messages := messages - {id};
      var tiled := ValidateCoverage(sort, state.fragments, state.totalSize);
      if !tiled {
        return Rejected(CoverageInvalid);
      }
      var crc := UdpCommon.Crc32(state.buffer);
      if crc != state.messageCrc {
        return Rejected(MessageCrcMismatch);
      }
      completed := completed + [CompletedMessage(id, state.buffer)];
      return Completed;
    }

    method HasCompleted() returns (any: bool)
      ensures any <==> completed != []
    {
      any := |completed| != 0;
    }

    method PopCompleted() returns (message: CompletedMessage)
      requires Valid() && completed != []
      modifies this`completed
      ensures Valid() && old(completed) == [message] + completed
    {
      message := completed[0];
      completed := completed[1..];
    }

    /** Erases while iterating: each id is looked at once, in any order. */
    method TickCleanup(now: u32)
      requires Valid()
      modifies this`messages
      ensures Valid()
      ensures Contents() == CleanupStep(config, now, old(Contents()))
    {
      hide StateInvariant, Sorts, Elapsed;
      CleanupKeepsInvariant(config, now, Contents());
      ghost var before := messages;
      var left := messages.Keys;
      while left != {}
        invariant left <= messages.Keys <= before.Keys
        invariant forall id | id in messages :: messages[id] == before[id]
        invariant forall id | id in before && id !in left :: id in messages <==> !Expired(config, now, before[id])
        decreases left
      {
        var id :| id in left;
        left := left - {id};
        if Elapsed(now, messages[id].createdAtMs) > config.timeoutMs {
          messages := messages - {id};
        }
      }
      assert messages == CleanupStep(config, now, old(Contents())).messages;
    }
  }
}
