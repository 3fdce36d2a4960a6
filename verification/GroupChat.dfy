/** The group-chat context: per origin, the messages since the last reply and their record ids.

    The critical sections contain no await, so each is one atomic step.  A message is already
    formatted, and its record id is the fresh uuid of its arrival. */
module GroupChat {
  import opened Text

  // ---------------------------------------------------------------- one origin

  /** `raw_records[umo]` and `_record_ids[umo]`. */
  datatype Queue = Queue(records: seq<string>, ids: seq<string>)

  /** What an event carries after `handle_message`; events that were not recorded carry nothing. */
  datatype Extras = Unset | Recorded(id: string, idx: nat)

  function Last<T>(s: seq<T>, n: nat): seq<T> {
    if |s| > n then s[|s| - n..] else s
  }

  /** A message arrives, and the oldest ones make room. */
  function Arrive(q: Queue, message: string, id: string, max: nat): Queue {
    Queue(Last(q.records + [message], max), Last(q.ids + [id], max))
  }

  /** `id_list.index(id)`, or the length. */
  function IndexOf(ids: seq<string>, id: string): (i: nat)
    ensures i <= |ids| && (i < |ids| ==> ids[i] == id)
    ensures i == |ids| <==> id !in ids
  {
    if ids == [] || ids[0] == id then 0 else 1 + IndexOf(ids[1..], id)
  }

  /** The position at which a request cuts the queue, or None if it leaves it alone. */
  function CutAt(q: Queue, x: Extras): Option<nat> {
    match x
    case Unset => None
    case Recorded(id, idx) =>
      var at := if id in q.ids then IndexOf(q.ids, id) else idx;
      if at < |q.records| then Some(at) else None
  }

  /** A request takes what is before the cut, and drops the record at the cut. */
  function Request(q: Queue, x: Extras): (Queue, seq<string>) {
    match CutAt(q, x)
    case None => (q, [])
    case Some(at) =>
      (Queue(q.records[at + 1..], if at + 1 <= |q.ids| then q.ids[at + 1..] else []), q.records[..at])
  }

  // ---------------------------------------------------------------- the object

  class GroupChatContext {
    var rawRecords: map<string, seq<string>>
    var recordIds: map<string, seq<string>>

    ghost function QueueOf(umo: string): Queue
      reads this
    {
      Queue(if umo in rawRecords then rawRecords[umo] else [], if umo in recordIds then recordIds[umo] else [])
    }

    // The two deques of an origin stay in lockstep.
    ghost predicate Valid()
      reads this
    {
      forall umo :: |QueueOf(umo).records| == |QueueOf(umo).ids|
    }

    constructor ()
      ensures Valid() && forall umo :: QueueOf(umo) == Queue([], [])
    {
      rawRecords, recordIds := map[], map[];
    }

    method HandleMessage(umo: string, message: string, id: string, maxCount: nat) returns (x: Extras)
      requires Valid() && maxCount > 0
      modifies this
      ensures Valid()
      ensures QueueOf(umo) == Arrive(old(QueueOf(umo)), message, id, maxCount)
      ensures |QueueOf(umo).records| <= maxCount
      ensures x == Recorded(id, |QueueOf(umo).records| - 1)
      ensures forall other :: other != umo ==> QueueOf(other) == old(QueueOf(other))
    {
      var records := if umo in rawRecords then rawRecords[umo] else [];
      var ids := if umo in recordIds then recordIds[umo] else [];
      assert |records| == |ids| by { assert Queue(records, ids) == QueueOf(umo); }
      records := records + [message];
      ids := ids + [id];
      records, ids := TrimLeft(records, maxCount, ids);
      Refill(umo, records, ids);
      x := Recorded(id, |records| - 1);
    }

    /** Writes both deques of an origin back. */
    method Refill(umo: string, records: seq<string>, ids: seq<string>)
      requires Valid() && |records| == |ids|
      modifies this
      ensures Valid()
      ensures QueueOf(umo) == Queue(records, ids)
      ensures forall other :: other != umo ==> QueueOf(other) == old(QueueOf(other))
    {
      rawRecords := rawRecords[umo := records];
      recordIds := recordIds[umo := ids];
      assert forall other :: other != umo ==> QueueOf(other) == old(QueueOf(other));
    }

    static method TrimLeft(records: seq<string>, maxRecords: nat, ids: seq<string>)
      returns (r: seq<string>, i: seq<string>)
      requires |records| == |ids|
      ensures r == Last(records, maxRecords) && i == Last(ids, maxRecords)
    {
      r, i := records, ids;
      while |r| > maxRecords
        invariant |r| == |i| <= |records|
        invariant r == records[|records| - |r|..] && i == ids[|ids| - |i|..]
        invariant |r| < |records| ==> |r| >= maxRecords
      {
        r := r[1..];
        if i != [] {
          i := i[1..];
        }
      }
    }

    method OnReqLlm(umo: string, x: Extras) returns (injected: seq<string>)
      requires Valid()
      modifies this
      ensures Valid()
      ensures (QueueOf(umo), injected) == Request(old(QueueOf(umo)), x)
      ensures forall other :: other != umo ==> QueueOf(other) == old(QueueOf(other))
    {
      injected := [];
      if x.Unset? {
        return;
      }
      var records := if umo in rawRecords then rawRecords[umo] else [];
      var ids := if umo in recordIds then recordIds[umo] else [];
      ghost var was := QueueOf(umo);
      assert was == Queue(records, ids) && |records| == |ids|;
      if records == [] {
        return;
      }
      var promptIdx := x.idx;
      if x.id in ids {
        promptIdx := IndexOf(ids, x.id);
      }
      if promptIdx >= |records| {
        return;
      }
      assert CutAt(was, x) == Some(promptIdx);
      injected := records[..promptIdx];
      Refill(umo, records[promptIdx + 1..], ids[promptIdx + 1..]);
    }

    method RemoveSession(umo: string) returns (count: nat)
      requires Valid()
      modifies this
      ensures Valid()
      ensures count == |old(QueueOf(umo)).records| && QueueOf(umo) == Queue([], [])
      ensures forall other :: other != umo ==> QueueOf(other) == old(QueueOf(other))
    {
      count := if umo in rawRecords then |rawRecords[umo]| else 0;
      rawRecords := rawRecords - {umo};
      recordIds := recordIds - {umo};
      assert forall other :: other != umo ==> QueueOf(other) == old(QueueOf(other));
    }
  }

  // ---------------------------------------------------------------- runs of one origin

  datatype Event = Message(text: string, id: string, max: nat) | Reply(x: Extras) | Reset

  datatype Entry = Entry(text: string, id: string)

  /** The queue, the log of all arrivals, and what each reply injected. */
  datatype Trace = Trace(queue: Queue, log: seq<Entry>, injected: seq<seq<string>>)

  ghost function Run(es: seq<Event>): Trace {
    if es == [] then Trace(Queue([], []), [], [])
    else
      var t := Run(es[..|es| - 1]);
      match es[|es| - 1]
      case Message(text, id, max) => Trace(Arrive(t.queue, text, id, max), t.log + [Entry(text, id)], t.injected)
      case Reply(x) => var (q, block) := Request(t.queue, x); Trace(q, t.log, t.injected + [block])
      case Reset => Trace(Queue([], []), t.log, t.injected)
  }

  ghost function TextsOf(log: seq<Entry>): seq<string> {
    seq(|log|, i requires 0 <= i < |log| => log[i].text)
  }

  ghost function IdsOf(log: seq<Entry>): seq<string> {
    seq(|log|, i requires 0 <= i < |log| => log[i].id)
  }

  /** Both deques are the log from `base` on. */
  ghost predicate IsSuffix(q: Queue, log: seq<Entry>, base: nat) {
    base <= |log| && q.records == TextsOf(log[base..]) && q.ids == IdsOf(log[base..])
  }

  /** A slice of the log. */
  datatype Slice = Slice(lo: nat, hi: nat)

  /** Block k is the text of slice k; the slices are in arrival order, do not overlap, and end
      before what is still queued. */
  ghost predicate InOrder(log: seq<Entry>, injected: seq<seq<string>>, slices: seq<Slice>, base: nat) {
    && |slices| == |injected| && base <= |log|
    && (forall k :: 0 <= k < |slices| ==> slices[k].lo <= slices[k].hi <= base)
    && (forall k :: 0 <= k < |slices| ==> injected[k] == TextsOf(log[slices[k].lo..slices[k].hi]))
    && (forall j, k :: 0 <= j < k < |slices| ==> slices[j].hi <= slices[k].lo)
  }

  lemma ArriveSuffix(q: Queue, log: seq<Entry>, base: nat, text: string, id: string, max: nat) returns (base': nat)
    requires IsSuffix(q, log, base)
    ensures base <= base' && IsSuffix(Arrive(q, text, id, max), log + [Entry(text, id)], base')
    ensures |Arrive(q, text, id, max).records| <= max
  {
    var longer := log + [Entry(text, id)];
    base' := if |q.records| + 1 > max then |longer| - max else base;
    assert longer[base..] == log[base..] + [Entry(text, id)];
    assert q.records + [text] == TextsOf(longer[base..]) && q.ids + [id] == IdsOf(longer[base..]);
    assert longer[base'..] == longer[base..][base' - base..];
  }

  lemma RequestSuffix(q: Queue, log: seq<Entry>, base: nat, x: Extras) returns (s: Slice, base': nat)
    requires IsSuffix(q, log, base)
    ensures base <= s.lo <= s.hi <= base' && IsSuffix(Request(q, x).0, log, base')
    ensures Request(q, x).1 == TextsOf(log[s.lo..s.hi])
  {
    match CutAt(q, x)
    case None =>
      s, base' := Slice(base, base), base;
    case Some(at) =>
      s, base' := Slice(base, base + at), base + at + 1;
      assert log[base'..] == log[base..][at + 1..];
      assert log[base..base + at] == log[base..][..at];
  }

  /** In every run the queues are a contiguous suffix of the arrival log, and what was injected
      are disjoint contiguous slices of it in arrival order; so nothing is injected twice. */
  lemma {:induction false} RunSlices(es: seq<Event>) returns (base: nat, slices: seq<Slice>)
    ensures var t := Run(es); IsSuffix(t.queue, t.log, base) && InOrder(t.log, t.injected, slices, base)
  {
    if es == [] {
      base, slices := 0, [];
    } else {
      var before, e := Run(es[..|es| - 1]), es[|es| - 1];
      base, slices := RunSlices(es[..|es| - 1]);
      match e {
        case Message(text, id, max) =>
          var base' := ArriveSuffix(before.queue, before.log, base, text, id, max);
          LongerLog(before.log, Entry(text, id), before.injected, slices, base);
          base := base';
        case Reply(x) =>
          var s, base' := RequestSuffix(before.queue, before.log, base, x);
          slices, base := slices + [s], base';
        case Reset =>
          base := |before.log|;
      }
    }
  }

  lemma LongerLog(log: seq<Entry>, e: Entry, injected: seq<seq<string>>, slices: seq<Slice>, base: nat)
    requires InOrder(log, injected, slices, base)
    ensures InOrder(log + [e], injected, slices, base)
  {
    forall k | 0 <= k < |slices| ensures (log + [e])[slices[k].lo..slices[k].hi] == log[slices[k].lo..slices[k].hi] {
    }
  }

  // ---------------------------------------------------------------- what one request gets

  ghost predicate Distinct(ids: seq<string>) {
    forall i, j :: 0 <= i < j < |ids| ==> ids[i] != ids[j]
  }

  /** A request whose id is still queued, at position p, gets exactly the messages queued before
      it; its own message is taken out without being injected, and the later ones stay. */
  lemma RequestExact(q: Queue, p: nat, idx: nat)
    requires |q.records| == |q.ids| && Distinct(q.ids) && p < |q.ids|
    ensures Request(q, Recorded(q.ids[p], idx)) == (Queue(q.records[p + 1..], q.ids[p + 1..]), q.records[..p])
  {
    assert q.ids[p] in q.ids;
    assert IndexOf(q.ids, q.ids[p]) == p;
  }

  lemma {:induction false} LogIds(es: seq<Event>)
    ensures IdsOf(Run(es).log) == Arrivals(es)
  {
    if es != [] {
      LogIds(es[..|es| - 1]);
    }
  }

  ghost function Arrivals(es: seq<Event>): seq<string> {
    if es == [] then []
    else Arrivals(es[..|es| - 1]) + (if es[|es| - 1].Message? then [es[|es| - 1].id] else [])
  }

  /** The same over whole runs: with fresh ids, a reply to arrival n, if that is still queued,
      injects the arrivals from the start of the queue up to n, and n is the next to leave. */
  lemma ReplyGetsEarlier(es: seq<Event>, n: nat, idx: nat) returns (base: nat)
    requires Distinct(Arrivals(es)) && n < |Run(es).log| && Run(es).log[n].id in Run(es).queue.ids
    ensures base <= n && IsSuffix(Run(es).queue, Run(es).log, base)
    ensures var after := Run(es + [Reply(Recorded(Run(es).log[n].id, idx))]);
            after.injected == Run(es).injected + [TextsOf(Run(es).log[base..n])] &&
            IsSuffix(after.queue, Run(es).log, n + 1)
  {
    var t := Run(es);
    var slices;
    base, slices := RunSlices(es);
    LogIds(es);
    RequestInLog(t.queue, t.log, base, n, idx);
    assert (es + [Reply(Recorded(t.log[n].id, idx))])[..|es|] == es;
  }

  /** A request by arrival n of the log, still queued. */
  lemma RequestInLog(q: Queue, log: seq<Entry>, base: nat, n: nat, idx: nat)
    requires IsSuffix(q, log, base) && Distinct(IdsOf(log)) && n < |log| && log[n].id in q.ids
    ensures base <= n && Request(q, Recorded(log[n].id, idx)).1 == TextsOf(log[base..n])
    ensures IsSuffix(Request(q, Recorded(log[n].id, idx)).0, log, n + 1)
  {
    assert q.ids == IdsOf(log)[base..];
    DistinctSuffix(IdsOf(log), base, n);
    RequestExact(q, n - base, idx);
    CutTexts(log, base, n - base);
  }

  /** In a list of distinct ids, the one at n is in the suffix from base on iff n is. */
  lemma DistinctSuffix(ids: seq<string>, base: nat, n: nat)
    requires Distinct(ids) && base <= |ids| && n < |ids| && ids[n] in ids[base..]
    ensures base <= n && Distinct(ids[base..])
  {
    var k :| 0 <= k < |ids[base..]| && ids[base..][k] == ids[n];
    assert ids[base + k] == ids[n];
  }

  /** Cutting the suffix at k splits the log at base + k. */
  lemma CutTexts(log: seq<Entry>, base: nat, k: nat)
    requires base + k < |log|
    ensures TextsOf(log[base..])[..k] == TextsOf(log[base..base + k])
    ensures TextsOf(log[base..])[k + 1..] == TextsOf(log[base + k + 1..])
    ensures IdsOf(log[base..])[k + 1..] == IdsOf(log[base + k + 1..])
  {
  }

  /** A reply to a message that was trimmed away reuses its old index: here the newer message "b"
      leaves the queue without ever being injected. */
  lemma StaleIndexLosesMessage()
    ensures var es := [Message("a", "1", 1), Message("b", "2", 1), Reply(Recorded("1", 0))];
            Run(es[..2]).queue == Queue(["b"], ["2"]) && Run(es).queue == Queue([], []) && Run(es).injected == [[]]
  {
    var es := [Message("a", "1", 1), Message("b", "2", 1), Reply(Recorded("1", 0))];
    assert es[..1][..0] == [] && es[..2][..1] == es[..1] && es[..|es| - 1] == es[..2];
    assert Run(es[..1][..0]) == Trace(Queue([], []), [], []);
    var one := Run(es[..1]);
    assert one.queue == Arrive(Queue([], []), "a", "1", 1) == Queue(["a"], ["1"]);
    var two := Run(es[..2]);
    assert two.queue == Arrive(one.queue, "b", "2", 1) == Queue(["b"], ["2"]);
    assert "1"[0] != "2"[0];
    assert "1" !in two.queue.ids;
    assert CutAt(two.queue, Recorded("1", 0)) == Some(0);
    var request := Request(two.queue, Recorded("1", 0));
    assert request.0.records == [] && request.0.ids == [];
    assert request.1 == [];
    assert two.injected == one.injected == Run(es[..1][..0]).injected;
    assert Run(es).injected == two.injected + [request.1];
  }

  /** A reply that cuts the queue drops one message without injecting it; that message is the
      reply's own iff its id is still queued. */
  lemma DropsOwnIff(q: Queue, id: string, idx: nat)
    requires |q.records| == |q.ids| && CutAt(q, Recorded(id, idx)).Some?
    ensures var at := CutAt(q, Recorded(id, idx)).value;
            q.records == Request(q, Recorded(id, idx)).1 + [q.records[at]] + Request(q, Recorded(id, idx)).0.records &&
            (q.ids[at] == id <==> id in q.ids)
  {
  }

  // ---------------------------------------------------------------- how long a message stays queued

  /** How many arrivals have left the queue, in terms of the events alone. */
  ghost function Gone(es: seq<Event>): nat {
    if es == [] then 0
    else
      var before, e := es[..|es| - 1], es[|es| - 1];
      match e
      case Message(_, _, max) => AtLeast(Gone(before), |Arrivals(es)| - max)
      case Reset => |Arrivals(before)|
      case Reply(x) => GoneAfterReply(Arrivals(before), Gone(before), x)
  }

  function AtLeast(x: nat, y: int): nat {
    if y > x then y else x
  }

  ghost function GoneAfterReply(ids: seq<string>, gone: nat, x: Extras): nat {
    match x
    case Unset => gone
    case Recorded(id, idx) =>
      var p := IndexOf(ids, id);
      if gone <= p < |ids| then p + 1 else if gone + idx < |ids| then gone + idx + 1 else gone
  }

  /** After these events the next one takes arrival n out of the queue, if it is still there: a
      message, if it is the max-th after n; a reset; a reply to n or to a later arrival; or a reply
      to an arrival already gone, whose old index reaches as far as n. */
  ghost predicate Passes(before: seq<Event>, e: Event, n: nat) {
    match e
    case Message(_, _, max) => n <= |Arrivals(before)| && |Arrivals(before)| + 1 - n > max
    case Reset => n < |Arrivals(before)|
    case Reply(x) => n < |Arrivals(before)| && PassedBy(Arrivals(before), Gone(before), x, n)
  }

  ghost predicate PassedBy(ids: seq<string>, gone: nat, x: Extras, n: nat) {
    match x
    case Unset => false
    case Recorded(id, idx) =>
      var p := IndexOf(ids, id);
      if gone <= p < |ids| then n <= p else n <= gone + idx < |ids|
  }

  ghost predicate NonePasses(es: seq<Event>, n: nat) {
    forall j :: 0 <= j < |es| ==> !Passes(es[..j], es[j], n)
  }

  /** Distinct ids have one position, in the list and in what is left of it. */
  lemma IndexInRest(ids: seq<string>, base: nat, id: string)
    requires Distinct(ids) && base <= |ids|
    ensures id in ids[base..] <==> base <= IndexOf(ids, id) < |ids|
    ensures id in ids[base..] ==> IndexOf(ids[base..], id) == IndexOf(ids, id) - base
  {
    var rest, p := ids[base..], IndexOf(ids, id);
    assert base <= p < |ids| ==> rest[p - base] == id;
    if id in rest {
      var k := IndexOf(rest, id);
      assert ids[base + k] == rest[k] == id;
      assert p == base + k;
    }
  }

  /** Where a reply cuts the queue, in terms of the arrivals. */
  lemma CutInLog(ids: seq<string>, gone: nat, q: Queue, x: Extras)
    requires Distinct(ids) && gone <= |ids| && q.ids == ids[gone..] && |q.records| == |q.ids|
    ensures GoneAfterReply(ids, gone, x) == if CutAt(q, x).Some? then gone + CutAt(q, x).value + 1 else gone
  {
    if x.Recorded? {
      IndexInRest(ids, gone, x.id);
    }
  }

  /** In every run with fresh ids the queue is what is not gone. */
  lemma {:induction false} QueueIsRest(es: seq<Event>)
    requires Distinct(Arrivals(es))
    ensures IsSuffix(Run(es).queue, Run(es).log, Gone(es)) && IdsOf(Run(es).log) == Arrivals(es)
  {
    LogIds(es);
    if es != [] {
      var before := es[..|es| - 1];
      ArrivalsGrow(es);
      LogIds(before);
      QueueIsRest(before);
      match es[|es| - 1] {
        case Message(text, id, max) => ArriveRest(Run(before).queue, Run(before).log, Gone(before), text, id, max);
        case Reset =>
        case Reply(x) => ReplyRest(Run(before).queue, Run(before).log, Gone(before), x);
      }
    }
  }

  lemma ArriveRest(q: Queue, log: seq<Entry>, gone: nat, text: string, id: string, max: nat)
    requires IsSuffix(q, log, gone)
    ensures IsSuffix(Arrive(q, text, id, max), log + [Entry(text, id)], AtLeast(gone, |log| + 1 - max))
  {
    var base := ArriveSuffix(q, log, gone, text, id, max);
  }

  lemma ReplyRest(q: Queue, log: seq<Entry>, gone: nat, x: Extras)
    requires IsSuffix(q, log, gone) && Distinct(IdsOf(log))
    ensures IsSuffix(Request(q, x).0, log, GoneAfterReply(IdsOf(log), gone, x))
  {
    IdsOfRest(log, gone);
    CutInLog(IdsOf(log), gone, q, x);
    var s, base := RequestSuffix(q, log, gone, x);
  }

  lemma ArrivalsGrow(es: seq<Event>)
    requires es != []
    ensures Arrivals(es[..|es| - 1]) <= Arrivals(es)
    ensures Distinct(Arrivals(es)) ==> Distinct(Arrivals(es[..|es| - 1]))
  {
  }

  lemma {:induction false} GoneBound(es: seq<Event>)
    ensures Gone(es) <= |Arrivals(es)|
  {
    if es != [] {
      GoneBound(es[..|es| - 1]);
    }
  }

  lemma {:induction false} GoneIff(es: seq<Event>, n: nat)
    requires n < |Arrivals(es)|
    ensures Gone(es) <= n <==> NonePasses(es, n)
  {
    var before, e := es[..|es| - 1], es[|es| - 1];
    GoneBound(before);
    NonePassesSnoc(es, n);
    if n < |Arrivals(before)| {
      GoneIff(before, n);
    } else {
      NotThereYet(before, n);
    }
    assert Gone(es) <= n <==> Gone(before) <= n && !Passes(before, e, n);
  }

  lemma NonePassesSnoc(es: seq<Event>, n: nat)
    requires es != []
    ensures NonePasses(es, n) <==> NonePasses(es[..|es| - 1], n) && !Passes(es[..|es| - 1], es[|es| - 1], n)
  {
    var before := es[..|es| - 1];
    forall j | 0 <= j < |before| ensures before[..j] == es[..j] && before[j] == es[j] {
    }
    assert NonePasses(es, n) ==> forall j :: 0 <= j < |before| ==> !Passes(es[..j], es[j], n);
  }

  /** Nothing passes an arrival that is still to come. */
  lemma {:induction false} NotThereYet(es: seq<Event>, n: nat)
    requires |Arrivals(es)| <= n
    ensures NonePasses(es, n)
  {
    if es != [] {
      ArrivalsGrow(es);
      NotThereYet(es[..|es| - 1], n);
      NonePassesSnoc(es, n);
    }
  }

  /** Over every run with fresh ids: arrival n is still queued iff no event since has passed it. */
  lemma StillQueuedIff(es: seq<Event>, n: nat)
    requires Distinct(Arrivals(es)) && n < |Arrivals(es)|
    ensures Arrivals(es)[n] in Run(es).queue.ids <==> NonePasses(es, n)
  {
    QueueIsRest(es);
    IdsOfRest(Run(es).log, Gone(es));
    GoneIff(es, n);
    IndexInRest(Arrivals(es), Gone(es), Arrivals(es)[n]);
    OnlyAt(Arrivals(es), n);
  }

  lemma IdsOfRest(log: seq<Entry>, base: nat)
    requires base <= |log|
    ensures IdsOf(log[base..]) == IdsOf(log)[base..]
  {
  }

  lemma OnlyAt(ids: seq<string>, n: nat)
    requires Distinct(ids) && n < |ids|
    ensures IndexOf(ids, ids[n]) == n
  {
  }

  /** So a reply to arrival n that cuts the queue takes out its own message iff no event since has
      passed it, and otherwise makes another one vanish. */
  lemma ReplyDropsOwnIff(es: seq<Event>, n: nat, idx: nat)
    requires Distinct(Arrivals(es)) && n < |Arrivals(es)|
    requires CutAt(Run(es).queue, Recorded(Arrivals(es)[n], idx)).Some?
    ensures var q, x := Run(es).queue, Recorded(Arrivals(es)[n], idx);
            var at := CutAt(q, x).value;
            && at < |q.ids| && q.records == Request(q, x).1 + [q.records[at]] + Request(q, x).0.records
            && (q.ids[at] == Arrivals(es)[n] <==> NonePasses(es, n))
  {
    QueueIsRest(es);
    StillQueuedIff(es, n);
    DropsOwnIff(Run(es).queue, Arrivals(es)[n], idx);
  }
}
