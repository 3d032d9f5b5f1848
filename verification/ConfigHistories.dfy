/** The configuration store of the registry demo as a value: names and their keys, items with
    numbered versions, and whole runs of publications, deletions and long polls. */
module ConfigHistories {
  import opened Wrappers

  const NUL: char := '\0'

  datatype Name = Name(namespace: string, group: string, dataId: string)

  datatype Revision = Revision(version: nat, content: string, contentType: string, md5: string, updatedAt: int,
                               updatedBy: string)

  datatype Item = Item(name: Name, rev: Revision)

  datatype Request = Request(content: Option<string>, contentType: string, updatedBy: string)

  // ----- names and keys ------------------------------------------------------------------------

  function Key(n: Name): string {
    n.namespace + [NUL] + n.group + [NUL] + n.dataId
  }

  predicate NulFree(n: Name) {
    NUL !in n.namespace && NUL !in n.group && NUL !in n.dataId
  }

  lemma NulsOfKey(n: Name, i: nat)
    requires i < |Key(n)| && Key(n)[i] == NUL && NulFree(n)
    ensures i == |n.namespace| || i == |n.namespace| + 1 + |n.group|
  {
  }

  lemma NulFreeKeysApart(n: Name, m: Name)
    requires NulFree(n) && Key(m) == Key(n)
    ensures m == n
  {
    var a, b := |m.namespace|, |m.namespace| + 1 + |m.group|;
    assert Key(m)[a] == NUL && Key(m)[b] == NUL;
    NulsOfKey(n, a);
    NulsOfKey(n, b);
    assert m.namespace == Key(m)[..a] == n.namespace;
    assert m.group == Key(m)[a + 1..b] == n.group;
    assert m.dataId == Key(m)[b + 1..] == n.dataId;
  }

  /** Another name with the same key: the separator inside a part moves the border. */
  lemma Alias(n: Name) returns (m: Name)
    requires !NulFree(n)
    ensures m != n && Key(m) == Key(n)
  {
    if NUL in n.namespace {
      var i :| 0 <= i < |n.namespace| && n.namespace[i] == NUL;
      m := Name(n.namespace[..i], n.namespace[i + 1..], n.group + [NUL] + n.dataId);
      assert |m.namespace| < |n.namespace|;
      assert n.namespace == n.namespace[..i] + [NUL] + n.namespace[i + 1..];
    } else if NUL in n.group {
      var i :| 0 <= i < |n.group| && n.group[i] == NUL;
      m := Name(n.namespace, n.group[..i], n.group[i + 1..] + [NUL] + n.dataId);
      assert |m.group| < |n.group|;
      assert n.group == n.group[..i] + [NUL] + n.group[i + 1..];
    } else {
      var i :| 0 <= i < |n.dataId| && n.dataId[i] == NUL;
      m := Name(n.namespace + [NUL] + n.group, n.dataId[..i], n.dataId[i + 1..]);
      assert |m.namespace| > |n.namespace|;
      assert n.dataId == n.dataId[..i] + [NUL] + n.dataId[i + 1..];
    }
    assert Key(m) == Key(n);
  }

  /** A name has its key for itself exactly when no part contains the separator. */
  lemma KeyIsOwnExactly(n: Name)
    ensures (forall m :: Key(m) == Key(n) ==> m == n) <==> NulFree(n)
  {
    if NulFree(n) {
      forall m | Key(m) == Key(n) ensures m == n { NulFreeKeysApart(n, m); }
    } else {
      var m := Alias(n);
    }
  }

  // ----- items ---------------------------------------------------------------------------------

  /** White space and line ends of ECMA-262, sections 12.2 and 12.3. */
  predicate IsSpace(c: char) {
    var n := c as int;
    9 <= n <= 13 || n in {0x20, 0xA0, 0x1680, 0x2028, 0x2029, 0x202F, 0x205F, 0x3000, 0xFEFF} || 0x2000 <= n <= 0x200A
  }

  function TrimLeft(s: string): (t: string)
    ensures |t| <= |s|
  {
    if s != [] && IsSpace(s[0]) then TrimLeft(s[1..]) else s
  }

  function Trim(s: string): string
    decreases |s|
  {
    var t := TrimLeft(s);
    if t != [] && IsSpace(t[|t| - 1]) then Trim(t[..|t| - 1]) else t
  }

  function Trimmed(n: Name): Name {
    Name(Trim(n.namespace), Trim(n.group), Trim(n.dataId))
  }

  /** The first of two texts that is not empty. */
  function FirstOf(a: string, b: string): string {
    if a != "" then a else b
  }

  /** The revision a publication creates. */
  function NextRevision(prev: Option<Item>, content: string, contentType: string, md5: string, updatedBy: string,
                        ts: int): Revision
  {
    var kind := if prev.Some? then FirstOf(prev.value.rev.contentType, "json") else "json";
    Revision(if prev.Some? then prev.value.rev.version + 1 else 1, content, FirstOf(contentType, kind), md5, ts,
             updatedBy)
  }

  /** Who published, "api" if nobody is named. */
  function Author(updatedBy: string): string {
    FirstOf(Trim(FirstOf(updatedBy, "api")), "api")
  }

  predicate Incomplete(n: Name) {
    n.namespace == "" || n.group == "" || n.dataId == ""
  }

  function ItemAt(configs: map<string, Item>, k: string): Option<Item> {
    if k in configs then Some(configs[k]) else None
  }

  /** What a request stores under a name that is trimmed already. */
  function NextItem(configs: map<string, Item>, name: Name, req: Request, md5: string -> string, ts: int): Item
    requires req.content.Some?
  {
    var content := req.content.value;
    Item(name, NextRevision(ItemAt(configs, Key(name)), content, req.contentType, md5(content),
                            Author(req.updatedBy), ts))
  }

  lemma TrimLeftStart(s: string)
    ensures TrimLeft(s) != [] ==> !IsSpace(TrimLeft(s)[0])
  {
  }

  lemma TrimLeftNothing(s: string)
    requires s == [] || !IsSpace(s[0])
    ensures TrimLeft(s) == s
  {
  }

  lemma {:induction false} TrimEnds(s: string)
    ensures var t := Trim(s); t != [] ==> !IsSpace(t[0]) && !IsSpace(t[|t| - 1])
    decreases |s|
  {
    var t := TrimLeft(s);
    TrimLeftStart(s);
    if t != [] && IsSpace(t[|t| - 1]) { TrimEnds(t[..|t| - 1]); }
  }

  lemma TrimTwice(s: string)
    ensures Trim(Trim(s)) == Trim(s)
  {
    TrimEnds(s);
    TrimLeftNothing(Trim(s));
  }

  /** What trimming means: only white space is cut off, and none is left at the ends. */
  ghost predicate TrimsTo(s: string, t: string) {
    exists i: nat, j: nat :: i <= j <= |s| && IsTrimmedPart(s, t, i, j)
  }

  ghost predicate IsTrimmedPart(s: string, t: string, i: nat, j: nat)
    requires i <= j <= |s|
  {
    && t == s[i..j] && (forall k :: 0 <= k < i || j <= k < |s| ==> IsSpace(s[k]))
    && (t != [] ==> !IsSpace(t[0]) && !IsSpace(t[|t| - 1]))
  }

  lemma {:induction false} TrimLeftCuts(s: string) returns (i: nat)
    ensures i <= |s| && TrimLeft(s) == s[i..] && forall k :: 0 <= k < i ==> IsSpace(s[k])
  {
    if s != [] && IsSpace(s[0]) {
      var j := TrimLeftCuts(s[1..]);
      i := j + 1;
    } else {
      i := 0;
    }
  }

  lemma {:induction false} TrimCuts(s: string)
    ensures TrimsTo(s, Trim(s))
    decreases |s|
  {
    var t := TrimLeft(s);
    var i := TrimLeftCuts(s);
    TrimEnds(s);
    if t != [] && IsSpace(t[|t| - 1]) {
      TrimCuts(t[..|t| - 1]);
      var a: nat, b: nat :| a <= b <= |t| - 1 && IsTrimmedPart(t[..|t| - 1], Trim(s), a, b);
      forall k | 0 <= k < i + a || i + b <= k < |s| ensures IsSpace(s[k]) {
        if k >= i { assert s[k] == t[k - i]; }
      }
      assert IsTrimmedPart(s, Trim(s), i + a, i + b);
    } else {
      assert IsTrimmedPart(s, Trim(s), i, |s|);
    }
  }

  lemma TrimmedPartUnique(s: string, t: string, i: nat, j: nat, u: string, a: nat, b: nat)
    requires i <= j <= |s| && a <= b <= |s| && IsTrimmedPart(s, t, i, j) && IsTrimmedPart(s, u, a, b)
    ensures t == u
  {
    if t != [] {
      assert t[0] == s[i] && t[|t| - 1] == s[j - 1];
    }
    if u != [] {
      assert u[0] == s[a] && u[|u| - 1] == s[b - 1];
    }
  }

  /** There is one such text, and trimming gives it. */
  lemma TrimsExactly(s: string, t: string)
    ensures TrimsTo(s, t) <==> t == Trim(s)
  {
    TrimCuts(s);
    if TrimsTo(s, t) {
      var i: nat, j: nat :| i <= j <= |s| && IsTrimmedPart(s, t, i, j);
      var a: nat, b: nat :| a <= b <= |s| && IsTrimmedPart(s, Trim(s), a, b);
      TrimmedPartUnique(s, t, i, j, Trim(s), a, b);
    }
  }

  /** What a publication stores: the content with its digest, the next version, the type asked
      for or else the one there was, and who published it. */
  lemma PublishedItem(configs: map<string, Item>, name: Name, req: Request, md5: string -> string, ts: int,
                      author: string)
    requires req.content.Some? && TrimsTo(if req.updatedBy == "" then "api" else req.updatedBy, author)
    ensures var item := NextItem(configs, name, req, md5, ts); var k := Key(name);
      && item.name == name && item.rev.content == req.content.value && item.rev.md5 == md5(req.content.value)
      && item.rev.version == (if k in configs then configs[k].rev.version + 1 else 1) && item.rev.updatedAt == ts
      && item.rev.updatedBy == (if author == "" then "api" else author)
      && item.rev.contentType ==
           if req.contentType != "" then req.contentType
           else if k in configs && configs[k].rev.contentType != "" then configs[k].rev.contentType
           else "json"
  {
    TrimsExactly(if req.updatedBy == "" then "api" else req.updatedBy, author);
  }

  // ----- runs ------------------------------------------------------------------------------------

  /** A long poll that waits. */
  datatype Wait = Wait(name: Name, version: int) {
    predicate Wants(item: Item) {
      name == item.name && item.rev.version > version
    }
  }

  datatype State = State(configs: map<string, Item>, waiting: seq<Wait>)

  const START := State(map[], [])

  /** `Expired` is the timer of the i-th waiting poll. */
  datatype Event =
    | Publication(raw: Name, req: Request, ts: int)
    | Deletion(name: Name)
    | Watching(name: Name, version: int)
    | Expired(i: nat)

  function NotWanting(ws: seq<Wait>, item: Item): (r: seq<Wait>)
    ensures forall w :: w in r ==> w in ws && !w.Wants(item)
  {
    if ws == [] then []
    else (if ws[0].Wants(item) then [] else [ws[0]]) + NotWanting(ws[1..], item)
  }

  function NotFor(ws: seq<Wait>, name: Name): (r: seq<Wait>)
    ensures forall w :: w in r ==> w in ws && w.name != name
  {
    if ws == [] then [] else (if ws[0].name == name then [] else [ws[0]]) + NotFor(ws[1..], name)
  }

  predicate Newer(configs: map<string, Item>, w: Wait) {
    Key(w.name) in configs && configs[Key(w.name)].rev.version > w.version
  }

  function Step(s: State, e: Event, md5: string -> string): State {
    match e
    case Publication(raw, req, ts) =>
      if Incomplete(Trimmed(raw)) || req.content.None? then s
      else
        var item := NextItem(s.configs, Trimmed(raw), req, md5, ts);
        State(s.configs[Key(item.name) := item], NotWanting(s.waiting, item))
    case Deletion(name) =>
      if Key(name) in s.configs then State(s.configs - {Key(name)}, NotFor(s.waiting, name)) else s
    case Watching(name, version) =>
      if Newer(s.configs, Wait(name, version)) then s else s.(waiting := s.waiting + [Wait(name, version)])
    case Expired(i) =>
      if i < |s.waiting| then s.(waiting := s.waiting[..i] + s.waiting[i + 1..]) else s
  }

  function After(s: State, events: seq<Event>, md5: string -> string): State
    decreases |events|
  {
    if events == [] then s else Step(After(s, events[..|events| - 1], md5), events[|events| - 1], md5)
  }

  // ----- when a poll is missed ---------------------------------------------------------------------

  /** A waiting poll for the name is older than what is stored under its key. */
  ghost predicate Stale(s: State, n: Name) {
    exists w :: w in s.waiting && w.name == n && Newer(s.configs, w)
  }

  ghost predicate Missable(n: Name, md5: string -> string) {
    exists events :: Stale(After(START, events, md5), n)
  }

  /** Another name that can be published under the key of this one. */
  predicate IsAlias(m: Name, n: Name) {
    m != n && Key(m) == Key(n) && Trimmed(m) == m && !Incomplete(m)
  }

  ghost predicate HasAlias(n: Name) {
    exists m :: IsAlias(m, n)
  }

  /** What is stored has been published, and no waiting poll is older than an item stored
      under its own name. */
  ghost predicate Consistent(s: State) {
    && (forall k :: k in s.configs ==>
          var m := s.configs[k].name; Key(m) == k && Trimmed(m) == m && !Incomplete(m))
    && (forall w :: w in s.waiting && Key(w.name) in s.configs ==> !w.Wants(s.configs[Key(w.name)]))
  }

  /** What that comes to for one poll. */
  lemma WaitIsCurrent(s: State, w: Wait)
    requires Consistent(s) && w in s.waiting && Key(w.name) in s.configs
    ensures var item := s.configs[Key(w.name)];
      && (item.rev.version > w.version ==> IsAlias(item.name, w.name))
      && (!HasAlias(w.name) ==> item.rev.version <= w.version)
  {
  }

  lemma ConsistentStep(s: State, e: Event, md5: string -> string)
    requires Consistent(s)
    ensures Consistent(Step(s, e, md5))
  {
    if e.Publication? {
      TrimTwice(e.raw.namespace);
      TrimTwice(e.raw.group);
      TrimTwice(e.raw.dataId);
    }
  }

  lemma {:induction false} ConsistentRun(events: seq<Event>, md5: string -> string)
    ensures Consistent(After(START, events, md5))
    decreases |events|
  {
    if events != [] {
      var n := |events| - 1;
      ConsistentRun(events[..n], md5);
      ConsistentStep(After(START, events[..n], md5), events[n], md5);
    }
  }

  /** Watching before the alias is published is enough. */
  lemma AliasIsMissed(n: Name, m: Name, md5: string -> string)
    requires IsAlias(m, n)
    ensures Missable(n, md5)
  {
    var watch, publish := Watching(n, 0), Publication(m, Request(Some(""), "", ""), 0);
    var events := [watch, publish];
    assert events[..1] == [watch] && [watch][..0] == [];
    var s := After(START, [watch], md5);
    assert After(START, [], md5) == START && s == State(map[], [Wait(n, 0)]);
    var item := NextItem(s.configs, m, publish.req, md5, 0);
    var t := After(START, events, md5);
    assert t == Step(s, publish, md5);
    var w := Wait(n, 0);
    assert s.waiting[0] == w && s.waiting[1..] == [] && !w.Wants(item);
    assert t.waiting[0] == w && w in t.waiting && Newer(t.configs, w);
    assert Stale(t, n);
  }

  /** A poll for a name can be missed in some run if and only if another name that can be
      published has the same key. */
  lemma MissableExactly(n: Name, md5: string -> string)
    ensures Missable(n, md5) <==> HasAlias(n)
  {
    if Missable(n, md5) {
      var events :| Stale(After(START, events, md5), n);
      ConsistentRun(events, md5);
      var s := After(START, events, md5);
      var w :| w in s.waiting && w.name == n && Newer(s.configs, w);
      WaitIsCurrent(s, w);
    }
    if m :| IsAlias(m, n) { AliasIsMissed(n, m, md5); }
  }

  /** So a name without the separator is safe, and so is one that has it where no other
      complete name can share the key. */
  lemma NulFreeIsNeverMissed(n: Name, md5: string -> string)
    requires NulFree(n)
    ensures !Missable(n, md5)
  {
    MissableExactly(n, md5);
    KeyIsOwnExactly(n);
  }

  lemma LoneNulIsNeverMissed(md5: string -> string)
    ensures !NulFree(Name("\0", "b", "c")) && !Missable(Name("\0", "b", "c"), md5)
  {
    var n := Name("\0", "b", "c");
    assert NUL in n.namespace;
    MissableExactly(n, md5);
    forall m ensures !IsAlias(m, n) { LoneNulHasNoAlias(m); }
  }

  lemma LoneNulHasNoAlias(m: Name)
    ensures !IsAlias(m, Name("\0", "b", "c"))
  {
    var k := "\0\0b\0c";
    assert Key(Name("\0", "b", "c")) == k;
    if Key(m) == k && !Incomplete(m) {
      var a, b := |m.namespace|, |m.namespace| + 1 + |m.group|;
      assert Key(m)[a] == NUL && Key(m)[b] == NUL && a >= 1 && b >= a + 2;
      assert a in {1, 3} && b in {3};
      assert m.namespace == k[..1] == "\0" && m.group == k[2..3] == "b" && m.dataId == k[4..] == "c";
    }
  }
}
