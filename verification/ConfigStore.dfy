/** The configuration store of the registry demo: numbered versions, a bounded history, and
    long polls that are answered by the next newer version. */
module ConfigStore {
  import opened Wrappers
  import opened ConfigHistories

  const MAX_HISTORY: nat := 20

  datatype Published = Stored(item: Item) | NamesRequired | ContentRequired

  // ----- what is recorded ------------------------------------------------------------------------

  /** The revisions before the last of a log, newest first, at most twenty of them. */
  ghost predicate AreEarlier(h: seq<Revision>, l: seq<Item>) {
    && |h| == (if |l| - 1 < MAX_HISTORY then |l| - 1 else MAX_HISTORY)
    && forall i :: 0 <= i < |h| ==> h[i] == l[|l| - 2 - i].rev
  }

  function HistoryAt(history: map<string, seq<Revision>>, k: string): seq<Revision> {
    if k in history then history[k] else []
  }

  /** Versions count up from 1. */
  ghost predicate Numbered(l: seq<Item>) {
    forall i :: 0 <= i < |l| ==> l[i].rev.version == i + 1
  }

  /** `log` is everything published under a key since it was last deleted. */
  ghost predicate RecordsOk(configs: map<string, Item>, history: map<string, seq<Revision>>,
                            log: map<string, seq<Item>>)
  {
    && configs.Keys == log.Keys && history.Keys <= configs.Keys
    && forall k :: k in log ==> RecordOk(configs[k], HistoryAt(history, k), log[k])
  }

  ghost predicate RecordOk(item: Item, history: seq<Revision>, l: seq<Item>) {
    l != [] && item == l[|l| - 1] && AreEarlier(history, l) && Numbered(l)
  }

  function LogAt(log: map<string, seq<Item>>, k: string): seq<Item> {
    if k in log then log[k] else []
  }

  /** What publishing does to the history: the replaced revision in front, the oldest cut. */
  function Pushed(history: map<string, seq<Revision>>, k: string, prev: Option<Item>): map<string, seq<Revision>> {
    if prev.None? then history
    else
      var h := [prev.value.rev] + HistoryAt(history, k);
      history[k := if |h| > MAX_HISTORY then h[..MAX_HISTORY] else h]
  }

  lemma PushedKeepsEarlier(item: Item, h: seq<Revision>, l: seq<Item>, next: Item)
    requires RecordOk(item, h, l) && next.rev.version == |l| + 1
    ensures var g := [item.rev] + h;
      RecordOk(next, if |g| > MAX_HISTORY then g[..MAX_HISTORY] else g, l + [next])
  {
  }

  /** Replacing the record of one key. */
  lemma RecordsUpdate(configs: map<string, Item>, history: map<string, seq<Revision>>, log: map<string, seq<Item>>,
                      k: string, item: Item, history': map<string, seq<Revision>>, l: seq<Item>)
    requires RecordsOk(configs, history, log) && RecordOk(item, HistoryAt(history', k), l)
    requires history'.Keys <= history.Keys + {k}
    requires forall j :: j != k ==> HistoryAt(history', j) == HistoryAt(history, j)
    ensures RecordsOk(configs[k := item], history', log[k := l])
  {
    var log' := log[k := l];
    forall j | j in log' ensures RecordOk(configs[k := item][j], HistoryAt(history', j), log'[j]) {
      if j != k { assert RecordOk(configs[j], HistoryAt(history, j), log[j]); }
    }
  }

  lemma RecordsPublish(configs: map<string, Item>, history: map<string, seq<Revision>>, log: map<string, seq<Item>>,
                       k: string, item: Item)
    requires RecordsOk(configs, history, log) && item.rev.version == |LogAt(log, k)| + 1
    ensures var prev := if k in configs then Some(configs[k]) else None;
      RecordsOk(configs[k := item], Pushed(history, k, prev), log[k := LogAt(log, k) + [item]])
  {
    var prev := if k in configs then Some(configs[k]) else None;
    if k in log {
      PushedKeepsEarlier(configs[k], HistoryAt(history, k), log[k], item);
    }
    RecordsUpdate(configs, history, log, k, item, Pushed(history, k, prev), LogAt(log, k) + [item]);
  }

  lemma RecordsDelete(configs: map<string, Item>, history: map<string, seq<Revision>>, log: map<string, seq<Item>>,
                      k: string)
    requires RecordsOk(configs, history, log)
    ensures RecordsOk(configs - {k}, history - {k}, log - {k})
  {
    forall j | j in log - {k} ensures RecordOk((configs - {k})[j], HistoryAt(history - {k}, j), (log - {k})[j]) {
      assert RecordOk(configs[j], HistoryAt(history, j), log[j]);
    }
  }

  /** The history is the consecutive previous versions, at most twenty of them. */
  lemma HistoryConsecutive(item: Item, h: seq<Revision>, l: seq<Item>)
    requires RecordOk(item, h, l)
    ensures |h| == if item.rev.version - 1 < MAX_HISTORY then item.rev.version - 1 else MAX_HISTORY
    ensures forall i :: 0 <= i < |h| ==> h[i].version == item.rev.version - 1 - i && h[i] == l[h[i].version - 1].rev
  {
    assert item.rev.version == |l|;
    forall i | 0 <= i < |h| ensures h[i].version == |l| - 1 - i {
      assert l[|l| - 2 - i].rev.version == |l| - 2 - i + 1;
    }
  }

  // ----- long polls ------------------------------------------------------------------------------

  datatype Answer = Waiting | Got(item: Item) | Nothing

  /** A long poll and, once there is one, its answer. */
  class Poll {
    const name: Name
    const version: int
    var answer: Answer

    constructor (name: Name, version: int, answer: Answer)
      ensures this.name == name && this.version == version && this.answer == answer
    {
      this.name, this.version, this.answer := name, version, answer;
    }

    /** The poll as a value. */
    function AsWait(): Wait {
      Wait(name, version)
    }

    predicate Wants(item: Item) {
      name == item.name && item.rev.version > version
    }

    /** Never called twice for a poll. */
    method Resolve(a: Answer)
      requires answer == Waiting
      modifies this
      ensures answer == a
    {
      answer := a;
    }
  }

  /** The polls that are not gone, in order. */
  function Keep(ws: seq<Poll>, gone: set<Poll>): seq<Poll> {
    if ws == [] then [] else (if ws[0] in gone then [] else [ws[0]]) + Keep(ws[1..], gone)
  }

  lemma KeepMembers(ws: seq<Poll>, gone: set<Poll>)
    ensures forall w :: w in Keep(ws, gone) <==> w in ws && w !in gone
  {
  }

  lemma TailDistinct(ws: seq<Poll>)
    requires Distinct(ws) && ws != []
    ensures Distinct(ws[1..]) && ws[0] !in ws[1..]
  {
  }

  lemma ConsDistinct(w: Poll, ws: seq<Poll>)
    requires Distinct(ws) && w !in ws
    ensures Distinct([w] + ws)
  {
  }

  lemma KeepDistinct(ws: seq<Poll>, gone: set<Poll>)
    requires Distinct(ws)
    ensures Distinct(Keep(ws, gone))
  {
    if ws != [] {
      TailDistinct(ws);
      KeepDistinct(ws[1..], gone);
      KeepMembers(ws[1..], gone);
      ConsDistinct(ws[0], Keep(ws[1..], gone));
      assert Keep(ws, gone) == if ws[0] in gone then Keep(ws[1..], gone) else [ws[0]] + Keep(ws[1..], gone);
    }
  }

  lemma KeepTwice(ws: seq<Poll>, a: set<Poll>, b: set<Poll>)
    ensures Keep(Keep(ws, a), b) == Keep(ws, a + b)
  {
    if ws != [] {
      KeepTwice(ws[1..], a, b);
      assert ([ws[0]] + Keep(ws[1..], a))[1..] == Keep(ws[1..], a);
      assert [] + Keep(ws[1..], a) == Keep(ws[1..], a);
    }
  }

  lemma KeepAll(ws: seq<Poll>)
    ensures Keep(ws, {}) == ws
  {
  }

  function Waits(ws: seq<Poll>): (r: seq<Wait>)
    ensures |r| == |ws| && forall i :: 0 <= i < |ws| ==> r[i] == ws[i].AsWait()
  {
    seq(|ws|, i requires 0 <= i < |ws| => ws[i].AsWait())
  }

  lemma WaitsCons(w: Poll, ws: seq<Poll>)
    ensures Waits([w] + ws) == [w.AsWait()] + Waits(ws)
  {
  }

  /** Dropping the polls that want an item is filtering their values. */
  lemma {:induction false} KeepNotWanting(ws: seq<Poll>, item: Item, gone: set<Poll>)
    requires forall i :: 0 <= i < |ws| ==> (ws[i] in gone <==> ws[i].Wants(item))
    ensures Waits(Keep(ws, gone)) == NotWanting(Waits(ws), item)
  {
    if ws != [] {
      KeepNotWanting(ws[1..], item, gone);
      assert Waits(ws)[1..] == Waits(ws[1..]) && Waits(ws)[0] == ws[0].AsWait();
      WaitsCons(ws[0], Keep(ws[1..], gone));
      assert [] + Keep(ws[1..], gone) == Keep(ws[1..], gone);
    }
  }

  lemma {:induction false} KeepNotFor(ws: seq<Poll>, name: Name, gone: set<Poll>)
    requires forall i :: 0 <= i < |ws| ==> (ws[i] in gone <==> ws[i].name == name)
    ensures Waits(Keep(ws, gone)) == NotFor(Waits(ws), name)
  {
    if ws != [] {
      KeepNotFor(ws[1..], name, gone);
      assert Waits(ws)[1..] == Waits(ws[1..]) && Waits(ws)[0] == ws[0].AsWait();
      WaitsCons(ws[0], Keep(ws[1..], gone));
      assert [] + Keep(ws[1..], gone) == Keep(ws[1..], gone);
    }
  }

  lemma {:induction false} KeepAllButOne(ws: seq<Poll>, i: nat)
    requires Distinct(ws) && i < |ws|
    ensures Keep(ws, {ws[i]}) == ws[..i] + ws[i + 1..]
  {
    TailDistinct(ws);
    if i == 0 {
      KeepOthers(ws[1..], ws[0]);
      assert [] + ws[1..] == ws[1..];
    } else {
      KeepAllButOne(ws[1..], i - 1);
      assert ws[i] == ws[1..][i - 1] && ws[0] != ws[i];
      assert [ws[0]] + ws[1..][..i - 1] == ws[..i] && ws[1..][i..] == ws[i + 1..];
    }
  }

  /** What is left of a list without its i-th poll. */
  lemma DropsOne(ws: seq<Poll>, i: nat)
    requires Distinct(ws) && i < |ws|
    ensures var rest := Keep(ws, {ws[i]});
      && Distinct(rest) && Waits(rest) == Waits(ws)[..i] + Waits(ws)[i + 1..]
      && forall j :: 0 <= j < |rest| ==> rest[j] in ws && rest[j] != ws[i]
  {
    KeepAllButOne(ws, i);
    KeepDistinct(ws, {ws[i]});
    var rest := ws[..i] + ws[i + 1..];
    assert Waits(rest) == Waits(ws)[..i] + Waits(ws)[i + 1..];
    assert forall j :: 0 <= j < |rest| ==> rest[j] == ws[if j < i then j else j + 1];
  }

  lemma KeepOthers(ws: seq<Poll>, w: Poll)
    requires w !in ws
    ensures Keep(ws, {w}) == ws
  {
    if ws != [] {
      assert ws[0] in ws;
      KeepOthers(ws[1..], w);
    }
  }

  // ----- the store -------------------------------------------------------------------------------

  class Store {
    const md5: string -> string
    var configs: map<string, Item>
    var history: map<string, seq<Revision>>
    var watchers: seq<Poll>
    ghost var log: map<string, seq<Item>>

    ghost predicate Valid()
      reads this, watchers
    {
      && RecordsOk(configs, history, log)
      && Distinct(watchers) && forall w :: w in watchers ==> w.answer == Waiting
    }

    /** The store as a value, its history aside. */
    ghost function Abs(): State
      reads this
    {
      State(configs, Waits(watchers))
    }

    constructor (md5: string -> string)
      ensures Valid() && this.md5 == md5 && Abs() == START && log == map[] && watchers == []
    {
      this.md5 := md5;
      configs, history, watchers, log := map[], map[], [], map[];
    }

    /** After any run, no waiting poll is older than what is stored under its key, unless
        another name that can be published has that key. */
    lemma WaitersAreCurrent(events: seq<Event>, w: Poll)
      requires Abs() == After(START, events, md5) && w in watchers && Key(w.name) in configs
      ensures configs[Key(w.name)].rev.version > w.version ==> IsAlias(configs[Key(w.name)].name, w.name)
      ensures !HasAlias(w.name) ==> configs[Key(w.name)].rev.version <= w.version
    {
      ConsistentRun(events, md5);
      var i :| 0 <= i < |watchers| && watchers[i] == w;
      assert Abs().waiting[i] == w.AsWait();
      WaitIsCurrent(Abs(), w.AsWait());
    }

    /** Polls only leave, except the one that an event may add. */
    twostate predicate PollsOnlyLeave()
      reads this
    {
      forall i :: 0 <= i < |watchers| ==> watchers[i] in old(watchers) || fresh(watchers[i])
    }

    method DropWatcher(target: Poll)
      modifies this`watchers
      ensures watchers == Keep(old(watchers), {target})
    {
      watchers := Keep(watchers, {target});
    }

    /** Answers every poll that waits for a version this new, in order. */
    method NotifyWatchers(item: Item)
      requires Distinct(watchers) && forall w :: w in watchers ==> w.answer == Waiting
      modifies this`watchers, watchers
      ensures watchers == Keep(old(watchers), set w | w in old(watchers) && w.Wants(item))
      ensures forall w :: w in old(watchers) ==> w.answer == if w.Wants(item) then Got(item) else Waiting
      ensures Distinct(watchers) && forall w :: w in watchers ==> w in old(watchers) && !w.Wants(item)
    {
      var pending := watchers;
      ghost var gone: set<Poll> := {};
      KeepAll(pending);
      for i := 0 to |pending|
        invariant forall j :: 0 <= j < |pending| ==> (pending[j] in gone <==> j < i && pending[j].Wants(item))
        invariant forall w :: w in gone ==> w in pending
        invariant watchers == Keep(pending, gone)
        invariant forall j :: 0 <= j < |pending| ==>
          pending[j].answer == if j < i && pending[j].Wants(item) then Got(item) else Waiting
      {
        var w := pending[i];
        if w.Wants(item) {
          DropWatcher(w);
          w.Resolve(Got(item));
          KeepTwice(pending, gone, {w});
          gone := gone + {w};
        }
      }
      assert gone == set w | w in pending && w.Wants(item);
      KeepMembers(pending, gone);
      KeepDistinct(pending, gone);
    }

    /** A deleted configuration answers every poll for that name with nothing. */
    method NotifyDeleted(name: Name)
      requires Distinct(watchers) && forall w :: w in watchers ==> w.answer == Waiting
      modifies this`watchers, watchers
      ensures watchers == Keep(old(watchers), set w | w in old(watchers) && w.name == name)
      ensures forall w :: w in old(watchers) ==> w.answer == if w.name == name then Nothing else Waiting
      ensures Distinct(watchers) && forall w :: w in watchers ==> w in old(watchers) && w.name != name
    {
      var pending := watchers;
      ghost var gone: set<Poll> := {};
      KeepAll(pending);
      for i := 0 to |pending|
        invariant forall j :: 0 <= j < |pending| ==> (pending[j] in gone <==> j < i && pending[j].name == name)
        invariant forall w :: w in gone ==> w in pending
        invariant watchers == Keep(pending, gone)
        invariant forall j :: 0 <= j < |pending| ==>
          pending[j].answer == if j < i && pending[j].name == name then Nothing else Waiting
      {
        var w := pending[i];
        if w.name == name {
          DropWatcher(w);
          w.Resolve(Nothing);
          KeepTwice(pending, gone, {w});
          gone := gone + {w};
        }
      }
      assert gone == set w | w in pending && w.name == name;
      KeepMembers(pending, gone);
      KeepDistinct(pending, gone);
    }

    /** Stores the next item of a key and keeps the revision it replaces. */
    method Record(k: string, item: Item, prev: Option<Item>)
      requires RecordsOk(configs, history, log) && item.rev.version == |LogAt(log, k)| + 1
      requires prev == if k in configs then Some(configs[k]) else None
      modifies this`configs, this`history, this`log
      ensures RecordsOk(configs, history, log) && configs == old(configs)[k := item]
      ensures log == old(log)[k := LogAt(old(log), k) + [item]]
    {
      RecordsPublish(configs, history, log, k, item);
      if prev.Some? {
        var hist := [prev.value.rev] + HistoryAt(history, k);
        history := history[k := if |hist| > MAX_HISTORY then hist[..MAX_HISTORY] else hist];
      }
      log := log[k := LogAt(log, k) + [item]];
      configs := configs[k := item];
    }

    /** Publishes under a name that is trimmed and complete. */
    method Deliver(name: Name, req: Request, ts: int) returns (item: Item)
      requires Valid() && Trimmed(name) == name && !Incomplete(name) && req.content.Some?
      modifies this, watchers
      ensures Valid() && PollsOnlyLeave() && Abs() == Step(old(Abs()), Publication(name, req, ts), md5)
      ensures item == NextItem(old(configs), name, req, md5, ts) && PublishedAt(Key(name), item, old(watchers))
    {
      var k := Key(name);
      var prev := if k in configs then Some(configs[k]) else None;
      item := Item(name, NextRevision(prev, req.content.value, req.contentType, md5(req.content.value),
                                      Author(req.updatedBy), ts));
      assert item == NextItem(configs, name, req, md5, ts);
      assert k in log ==> RecordOk(configs[k], HistoryAt(history, k), log[k]);
      Record(k, item, prev);
      ghost var before := watchers;
      NotifyWatchers(item);
      KeepNotWanting(before, item, set w | w in before && w.Wants(item));
    }

    /** What publishing an item does: one more entry in the log of its key, and exactly the
        polls that wait for a version this new are answered with it. */
    twostate predicate PublishedAt(k: string, item: Item, polls: seq<Poll>)
      reads this, polls
    {
      && log == old(log)[k := LogAt(old(log), k) + [item]]
      && watchers == Keep(polls, set w | w in polls && w.Wants(item))
      && forall w :: w in polls ==> w.answer == if w.Wants(item) then Got(item) else Waiting
    }

    method Publish(raw: Name, req: Request, ts: int) returns (r: Published)
      requires Valid()
      modifies this, watchers
      ensures Valid() && PollsOnlyLeave() && Abs() == Step(old(Abs()), Publication(raw, req, ts), md5)
      ensures r == NamesRequired <==> Trim(raw.namespace) == "" || Trim(raw.group) == "" || Trim(raw.dataId) == ""
      ensures r != NamesRequired ==> (r == ContentRequired <==> req.content.None?)
      ensures !r.Stored? ==> history == old(history) && log == old(log) && watchers == old(watchers)
      ensures r.Stored? ==>
        && r.item == NextItem(old(configs), Trimmed(raw), req, md5, ts)
        && PublishedAt(Key(r.item.name), r.item, old(watchers))
    {
      var name := Trimmed(raw);
      if Incomplete(name) {
        return NamesRequired;
      }
      if req.content.None? {
        return ContentRequired;
      }
      TrimTwice(raw.namespace);
      TrimTwice(raw.group);
      TrimTwice(raw.dataId);
      var item := Deliver(name, req, ts);
      return Stored(item);
    }

    /** Deletes a name as it is given: nothing is trimmed here. */
    method DeleteConfig(name: Name) returns (existed: bool)
      requires Valid()
      modifies this, watchers
      ensures Valid() && PollsOnlyLeave() && Abs() == Step(old(Abs()), Deletion(name), md5)
      ensures existed == (Key(name) in old(configs)) && log == old(log) - {Key(name)}
      ensures watchers ==
        if existed then Keep(old(watchers), set w | w in old(watchers) && w.name == name) else old(watchers)
      ensures forall w :: w in old(watchers) ==> w.answer == if existed && w.name == name then Nothing else Waiting
    {
      var k := Key(name);
      existed := k in configs;
      RecordsDelete(configs, history, log, k);
      configs := configs - {k};
      history := history - {k};
      log := log - {k};
      if existed {
        ghost var before := watchers;
        NotifyDeleted(name);
        KeepNotFor(before, name, set w | w in before && w.name == name);
      }
    }

    /** A long poll: answered at once by a newer version, otherwise it waits. */
    method Watch(name: Name, version: int) returns (w: Poll)
      requires Valid()
      modifies this`watchers
      ensures Valid() && PollsOnlyLeave() && Abs() == Step(old(Abs()), Watching(name, version), md5)
      ensures fresh(w) && w.name == name && w.version == version
      ensures var current := if Key(name) in configs then Some(configs[Key(name)]) else None;
        if current.Some? && current.value.rev.version > version
        then w.answer == Got(current.value) && watchers == old(watchers)
        else w.answer == Waiting && watchers == old(watchers) + [w]
    {
      if Key(name) in configs && configs[Key(name)].rev.version > version {
        w := new Poll(name, version, Got(configs[Key(name)]));
        return;
      }
      w := new Poll(name, version, Waiting);
      watchers := watchers + [w];
    }

    /** The timer of a poll, which is cleared when the poll is answered. */
    method Expire(i: nat)
      requires Valid() && i < |watchers|
      modifies this`watchers, watchers[i]
      ensures Valid() && PollsOnlyLeave() && Abs() == Step(old(Abs()), Expired(i), md5)
      ensures old(watchers)[i].answer == Nothing && watchers == Keep(old(watchers), {old(watchers)[i]})
    {
      var w := watchers[i];
      DropsOne(watchers, i);
      DropWatcher(w);
      w.Resolve(Nothing);
    }

    method Handle(e: Event)
      requires Valid()
      modifies this, watchers
      ensures Valid() && Abs() == Step(old(Abs()), e, md5) && PollsOnlyLeave()
    {
      match e {
        case Publication(raw, req, ts) =>
          var _ := Publish(raw, req, ts);
        case Deletion(name) =>
          var _ := DeleteConfig(name);
        case Watching(name, version) =>
          var _ := Watch(name, version);
        case Expired(i) =>
          if i < |watchers| {
            Expire(i);
          }
      }
    }

    /** Runs a whole history. */
    method RunAll(events: seq<Event>)
      requires Valid()
      modifies this, watchers
      ensures Valid() && Abs() == After(old(Abs()), events, md5)
    {
      for i := 0 to |events|
        invariant Valid() && Abs() == After(old(Abs()), events[..i], md5) && PollsOnlyLeave()
      {
        assert events[..i + 1][..i] == events[..i];
        Handle(events[i]);
      }
      assert events[..|events|] == events;
    }
  }

  const WATCHED := Name("a\0b", "c", "d")
  const OTHER := Name("a", "b\0c", "d")

  lemma Collision()
    ensures Key(WATCHED) == Key(OTHER) && WATCHED != OTHER
  {
    assert Key(WATCHED) == "a\0b\0c\0d" == Key(OTHER);
    assert |WATCHED.namespace| != |OTHER.namespace|;
  }

  lemma NothingToTrim()
    ensures Trimmed(OTHER) == OTHER
  {
  }

  /** Names whose keys collide do lose an update: the poll waits on while a newer version
      is stored under its key. */
  method CollidingPublishIsMissed(md5: string -> string) returns (store: Store, w: Poll)
    ensures store.Valid() && w in store.watchers && w.answer == Waiting && w.name == WATCHED
    ensures Key(w.name) in store.configs && store.configs[Key(w.name)].rev.version > w.version
  {
    store := new Store(md5);
    w := store.Watch(WATCHED, 0);
    Collision();
    NothingToTrim();
    ghost var polls := store.watchers;
    assert polls == [w] && store.configs == map[];
    var r := store.Publish(OTHER, Request(Some("x"), "", ""), 0);
    assert r.item.name == OTHER && r.item.rev.version == 1 && !w.Wants(r.item);
    KeepMembers(polls, set x | x in polls && x.Wants(r.item));
    assert store.configs == map[Key(OTHER) := r.item];
  }
}
