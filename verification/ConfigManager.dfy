/** Loading configuration documents and notifying subscribers of the paths that changed. */
module ConfigManager {
  import opened Search
  import opened JsonValue

  /** The value at a dotted path; null when there is none. */
  function At(doc: Json, path: string): Json {
    match Lookup(doc, PathKeys(path))
    case None => Null
    case Some(v) => v
  }

  /** A typed view of a document, opaque here, with the version it was built as. */
  datatype Snapshot = Snapshot(version: nat, sections: Json)

  /**
   What a manager relies on: the default document, the validation callback, the conversion of a
   document to typed sections, and the JSON library's conversion of integers to `double`.
   */
  datatype Hooks = Hooks(defaults: Json, validate: Json -> bool, project: Json -> Option<Json>, toDouble: IntToDouble)

  /** The manager's state. Each subscriber of a path is the last value it was given. */
  datatype State = State(
    document: Json,
    snapshot: Option<Snapshot>,
    versions: nat,
    subscribers: map<string, seq<Json>>)

  datatype Outcome = Loaded | Refused | Threw

  /** What a load merges over the defaults. */
  function Merged(h: Hooks, doc: Json): Json { Merge(h.defaults, doc) }

  /** A load is accepted when the loader produced a document and validation passes. */
  predicate Accepted(h: Hooks, doc: Option<Json>) { doc.Some? && h.validate(Merged(h, doc.value)) }

  /** What the subscribers of one path hold after a change of the document. */
  function NotifiedAt(d: IntToDouble, held: seq<Json>, before: Json, after: Json, path: string): seq<Json> {
    if JsonEq(d, At(before, path), At(after, path)) then held else seq(|held|, _ => At(after, path))
  }

  function Notified(d: IntToDouble, subs: map<string, seq<Json>>, before: Json, after: Json): map<string, seq<Json>> {
    map path | path in subs :: NotifiedAt(d, subs[path], before, after, path)
  }

  function LoadOutcome(h: Hooks, doc: Option<Json>): Outcome {
    if !Accepted(h, doc) then Refused
    else if h.project(Merged(h, doc.value)).None? then Threw
    else Loaded
  }

  /**
   The state after a load. A refused load changes nothing. When the typed sections cannot be built,
   the document and the version counter have changed already, but the snapshot and the subscribers have not.
   */
  function Load(h: Hooks, s: State, doc: Option<Json>): State {
    if !Accepted(h, doc) then s
    else
      var merged := Merged(h, doc.value);
      match h.project(merged)
      case None => s.(document := merged, versions := s.versions + 1)
      case Some(v) => s.(document := merged, versions := s.versions + 1, snapshot := Some(Snapshot(s.versions + 1, v)),
                         subscribers := Notified(h.toDouble, s.subscribers, s.document, merged))
  }

  // ---- The document after a load ----

  /** A load is refused exactly when there is no document, or the document over the defaults does not validate. */
  lemma {:induction false} RefusedExactly(h: Hooks, s: State, doc: Option<Json>)
    ensures LoadOutcome(h, doc) == Refused <==> doc.None? || !h.validate(Merge(h.defaults, doc.value))
    ensures LoadOutcome(h, doc) == Loaded <==>
            doc.Some? && h.validate(Merge(h.defaults, doc.value)) && h.project(Merge(h.defaults, doc.value)).Some?
    ensures LoadOutcome(h, doc) == Refused ==> Load(h, s, doc) == s
    ensures LoadOutcome(h, doc) != Refused ==> Load(h, s, doc).versions == s.versions + 1
    ensures LoadOutcome(h, doc) == Loaded ==>
              Load(h, s, doc).snapshot == Some(Snapshot(s.versions + 1, h.project(Load(h, s, doc).document).value))
    ensures LoadOutcome(h, doc) == Threw ==>
              Load(h, s, doc).snapshot == s.snapshot && Load(h, s, doc).subscribers == s.subscribers
  {
  }

  /** The document an accepted load leaves: the file's values over the defaults. */
  lemma {:induction false} DocumentAfterLoad(h: Hooks, s: State, doc: Option<Json>, keys: seq<string>, below: seq<string>)
    requires LoadOutcome(h, doc) != Refused
    ensures Silent(doc.value, keys) ==> Lookup(Load(h, s, doc).document, keys) == Lookup(h.defaults, keys)
    ensures Lookup(doc.value, keys).Some? && !Lookup(doc.value, keys).value.Obj? ==>
              && Lookup(Load(h, s, doc).document, keys) == Lookup(doc.value, keys)
              && (below != [] ==> Lookup(Load(h, s, doc).document, keys + below) == None)
    ensures Lookup(doc.value, keys).Some? && Lookup(doc.value, keys).value.Obj?
            && Lookup(h.defaults, keys).Some? && Lookup(h.defaults, keys).value.Obj? ==>
              var found := Lookup(Load(h, s, doc).document, keys);
              && found.Some? && found.value.Obj?
              && found.value.fields.Keys == Lookup(h.defaults, keys).value.fields.Keys + Lookup(doc.value, keys).value.fields.Keys
  {
    var d := doc.value;
    if Silent(d, keys) { MergeWhereSilent(h.defaults, d, keys); }
    if Lookup(d, keys).Some? {
      if Lookup(d, keys).value.Obj? { MergeWherePresent(h.defaults, d, keys); } else { NonObjectWins(h.defaults, d, keys, below); }
    }
  }

  /** For example a port that only the defaults have stays, beside a host that only the file has. */
  lemma {:induction false} DefaultsStay(h: Hooks, s: State)
    requires h.defaults == Obj(map["port" := Int(false, 80)])
    requires LoadOutcome(h, Some(Obj(map["host" := Str("h")]))) != Refused
    ensures var document := Load(h, s, Some(Obj(map["host" := Str("h")]))).document;
            Lookup(document, ["port"]) == Some(Int(false, 80)) && Lookup(document, ["host"]) == Some(Str("h"))
  {
    var file := Obj(map["host" := Str("h")]);
    assert ["port"][1..] == [] && ["host"][1..] == [];
    assert Silent(file, ["port"]);
    DocumentAfterLoad(h, s, Some(file), ["port"], []);
    DocumentAfterLoad(h, s, Some(file), ["host"], []);
    assert Lookup(h.defaults, ["port"]) == Lookup(Int(false, 80), []);
    assert Lookup(file, ["host"]) == Lookup(Str("h"), []);
  }

  // ---- Subscribers track the document ----

  /** Every subscriber holds the document's value at its path, as far as the library can tell. */
  ghost predicate Tracks(d: IntToDouble, s: State) {
    forall path, i :: path in s.subscribers && 0 <= i < |s.subscribers[path]| ==>
      JsonEq(d, s.subscribers[path][i], At(s.document, path))
  }

  /** Snapshots are numbered by the counter. */
  ghost predicate Versioned(s: State) {
    s.snapshot.Some? ==> s.snapshot.value.version <= s.versions
  }

  /** All integers around are allowed ones. */
  ghost predicate Clean(allowed: Integers, s: State) {
    && IntegersIn(allowed, s.document)
    && forall path, i :: path in s.subscribers && 0 <= i < |s.subscribers[path]| ==>
         IntegersIn(allowed, s.subscribers[path][i])
  }

  predicate CleanDoc(allowed: Integers, h: Hooks, doc: Option<Json>) {
    IntegersIn(allowed, h.defaults) && (doc.Some? ==> IntegersIn(allowed, doc.value))
  }

  lemma {:induction false} AtKeepsIntegers(allowed: Integers, doc: Json, path: string)
    requires IntegersIn(allowed, doc)
    ensures IntegersIn(allowed, At(doc, path))
  {
    if Lookup(doc, PathKeys(path)).Some? { LookupKeepsIntegers(allowed, doc, PathKeys(path)); }
  }

  lemma {:induction false} LoadKeepsClean(allowed: Integers, h: Hooks, s: State, doc: Option<Json>)
    requires Clean(allowed, s) && CleanDoc(allowed, h, doc)
    ensures Clean(allowed, Load(h, s, doc))
  {
    if Accepted(h, doc) {
      var s' := Load(h, s, doc);
      MergeKeepsIntegers(allowed, h.defaults, doc.value);
      forall path, i | path in s'.subscribers && 0 <= i < |s'.subscribers[path]|
        ensures IntegersIn(allowed, s'.subscribers[path][i])
      {
        AtKeepsIntegers(allowed, s'.document, path);
      }
    }
  }

  lemma {:induction false} LoadKeepsTracking(allowed: Integers, h: Hooks, s: State, doc: Option<Json>)
    requires Faithful(h.toDouble, allowed) && Clean(allowed, s) && CleanDoc(allowed, h, doc)
    requires Tracks(h.toDouble, s) && LoadOutcome(h, doc) != Threw
    ensures Tracks(h.toDouble, Load(h, s, doc))
  {
    var d, s' := h.toDouble, Load(h, s, doc);
    LoadKeepsClean(allowed, h, s, doc);
    if Accepted(h, doc) {
      forall path, i | path in s'.subscribers && 0 <= i < |s'.subscribers[path]|
        ensures JsonEq(d, s'.subscribers[path][i], At(s'.document, path))
      {
        if JsonEq(d, At(s.document, path), At(s'.document, path)) {
          AtKeepsIntegers(allowed, s.document, path);
          AtKeepsIntegers(allowed, s'.document, path);
          EqTransitive(d, allowed, s.subscribers[path][i], At(s.document, path), At(s'.document, path));
        } else {
          EqReflexive(d, At(s'.document, path));
        }
      }
    }
  }

  /** No subscribed path has changed. */
  ghost predicate SubscribedUnchanged(d: IntToDouble, s: State, doc: Json) {
    forall path :: path in s.subscribers && s.subscribers[path] != [] ==> JsonEq(d, At(s.document, path), At(doc, path))
  }

  /** After a load that throws, subscribers still track exactly when no subscribed path changed. */
  lemma {:induction false} TrackingAfterThrow(allowed: Integers, h: Hooks, s: State, doc: Option<Json>)
    requires Faithful(h.toDouble, allowed) && Clean(allowed, s) && CleanDoc(allowed, h, doc)
    requires Tracks(h.toDouble, s) && LoadOutcome(h, doc) == Threw
    ensures Tracks(h.toDouble, Load(h, s, doc)) <==> SubscribedUnchanged(h.toDouble, s, Merged(h, doc.value))
  {
    var d, s', merged := h.toDouble, Load(h, s, doc), Merged(h, doc.value);
    LoadKeepsClean(allowed, h, s, doc);
    forall path, i | path in s.subscribers && 0 <= i < |s.subscribers[path]|
      ensures JsonEq(d, s.subscribers[path][i], At(merged, path)) <==> JsonEq(d, At(s.document, path), At(merged, path))
    {
      AtKeepsIntegers(allowed, s.document, path);
      AtKeepsIntegers(allowed, merged, path);
      SameComparison(d, allowed, s.subscribers[path][i], At(s.document, path), At(merged, path));
    }
    forall path | path in s.subscribers && s.subscribers[path] != []
      ensures JsonEq(d, s.subscribers[path][0], At(merged, path)) <==> JsonEq(d, At(s.document, path), At(merged, path))
    {
    }
  }

  /** Equal values compare alike with a third one. */
  lemma {:induction false} SameComparison(d: IntToDouble, allowed: Integers, a: Json, b: Json, c: Json)
    requires Faithful(d, allowed) && IntegersIn(allowed, a) && IntegersIn(allowed, b) && IntegersIn(allowed, c)
    requires JsonEq(d, a, b)
    ensures JsonEq(d, a, c) <==> JsonEq(d, b, c)
  {
    EqSymmetric(d, a, b);
    if JsonEq(d, b, c) { EqTransitive(d, allowed, a, b, c); }
    if JsonEq(d, a, c) { EqTransitive(d, allowed, b, a, c); }
  }

  function LoadAll(h: Hooks, s: State, docs: seq<Option<Json>>): State
    decreases |docs|
  {
    if docs == [] then s else LoadAll(h, Load(h, s, docs[0]), docs[1..])
  }

  /** A run of loads over allowed integers whose typed sections can all be built, from a state that tracks. */
  ghost predicate Admissible(allowed: Integers, h: Hooks, s: State, docs: seq<Option<Json>>) {
    && Tracks(h.toDouble, s) && Clean(allowed, s) && IntegersIn(allowed, h.defaults)
    && forall i :: 0 <= i < |docs| ==> CleanDoc(allowed, h, docs[i]) && LoadOutcome(h, docs[i]) != Threw
  }

  /** Over any such run every subscriber tracks its path. */
  lemma {:induction false} SubscribersTrack(allowed: Integers, h: Hooks, s: State, docs: seq<Option<Json>>)
    requires Faithful(h.toDouble, allowed) && Admissible(allowed, h, s, docs)
    ensures Tracks(h.toDouble, LoadAll(h, s, docs))
    decreases |docs|
  {
    if docs != [] {
      LoadKeepsClean(allowed, h, s, docs[0]);
      LoadKeepsTracking(allowed, h, s, docs[0]);
      SubscribersTrack(allowed, h, Load(h, s, docs[0]), docs[1..]);
    }
  }

  ghost predicate AlwaysTracks(d: IntToDouble, allowed: Integers) {
    forall h: Hooks, s: State, docs: seq<Option<Json>> :: h.toDouble == d && Admissible(allowed, h, s, docs) ==> Tracks(d, LoadAll(h, s, docs))
  }

  /**
   The exact condition: subscribers track over every run of loads if and only if the conversion to
   `double` is faithful to the integers that the documents may hold.
   */
  lemma {:induction false} TrackingExactly(d: IntToDouble, allowed: Integers)
    ensures AlwaysTracks(d, allowed) <==> Faithful(d, allowed)
  {
    if Faithful(d, allowed) {
      forall h: Hooks, s: State, docs: seq<Option<Json>> | h.toDouble == d && Admissible(allowed, h, s, docs) ensures Tracks(d, LoadAll(h, s, docs)) {
        SubscribersTrack(allowed, h, s, docs);
      }
    } else {
      var a: Json, b: Json :| a.Int? && b.Int? && allowed(a) && allowed(b) && (JsonEq(d, a, b) <==> d(a.n) != d(b.n));
      var x, y, z := Slip(d, a, b);
      MissedChangeOver(d, allowed, x, y, z);
    }
  }

  /** Documents whose integers are at most `2^53` in size: subscribers always track. */
  lemma {:induction false} SafeDocumentsTrack(d: IntToDouble)
    requires forall n :: -SAFE <= n <= SAFE ==> d(n) == n as real
    ensures AlwaysTracks(d, IsSafe)
  {
    SafeIntegersAreFaithful(d);
    TrackingExactly(d, IsSafe);
  }

  /** Two loads in a row whose values at a path the library calls equal to the ones before: no subscriber is told. */
  lemma {:induction false} TwoQuietLoads(h: Hooks, s: State, first: Json, second: Json, path: string)
    requires LoadOutcome(h, Some(first)) == LoadOutcome(h, Some(second)) == Loaded && path in s.subscribers
    requires JsonEq(h.toDouble, At(s.document, path), At(Merged(h, first), path))
    requires JsonEq(h.toDouble, At(Merged(h, first), path), At(Merged(h, second), path))
    ensures var end := LoadAll(h, s, [Some(first), Some(second)]);
            end.document == Merged(h, second) && path in end.subscribers && end.subscribers[path] == s.subscribers[path]
  {
    var mid := Load(h, s, Some(first));
    assert [Some(first), Some(second)][1..] == [Some(second)] && [Some(second)][1..] == [];
    assert LoadAll(h, mid, [Some(second)]) == Load(h, mid, Some(second));
  }

  lemma {:induction false} MissedChangeOver(d: IntToDouble, allowed: Integers, x: Json, y: Json, z: Json)
    requires IntegersIn(allowed, x) && IntegersIn(allowed, y) && IntegersIn(allowed, z)
    requires JsonEq(d, x, y) && JsonEq(d, y, z) && !JsonEq(d, x, z)
    ensures !AlwaysTracks(d, allowed)
  {
    var h := Hooks(Null, _ => true, v => Some(v), d);
    var s := State(x, None, 0, map["" := [x]]);
    var docs := [Some(y), Some(z)];
    EqReflexive(d, x);
    assert At(x, "") == x && At(y, "") == y && At(z, "") == z;
    TwoQuietLoads(h, s, y, z, "");
    var end := LoadAll(h, s, docs);
    assert !JsonEq(d, end.subscribers[""][0], At(end.document, ""));
    assert Admissible(allowed, h, s, docs);
  }

  /** Documents with one member. */
  function Doc(v: Json): Json { Obj(map["x" := v]) }

  lemma {:induction false} DocAtX(h: Hooks, v: Json)
    requires h.defaults == Obj(map[])
    ensures Merged(h, Doc(v)) == Doc(v) && At(Doc(v), "x") == v
  {
    assert Merge(Obj(map[]), Doc(v)).fields == Doc(v).fields;
    assert SplitDots("x") == ["x"];
    assert Lookup(Doc(v), ["x"]) == Lookup(v, ["x"][1..]);
  }

  /**
   The failing case: `2^53`, then `2^53` as a floating-point number, then `2^53 + 1`. No load
   notifies, and the subscriber is left with a value that the library calls different.
   */
  lemma {:induction false} LargeIntegersSlip(h: Hooks)
    requires h.defaults == Obj(map[]) && (forall v :: h.validate(v) && h.project(v).Some?)
    requires h.toDouble(SAFE) == h.toDouble(SAFE + 1) == SAFE as real
    ensures var s := State(Doc(Int(false, SAFE)), None, 0, map["x" := [Int(false, SAFE)]]);
            var end := LoadAll(h, s, [Some(Doc(Float(SAFE as real))), Some(Doc(Int(false, SAFE + 1)))]);
            && Tracks(h.toDouble, s)
            && At(end.document, "x") == Int(false, SAFE + 1)
            && "x" in end.subscribers && end.subscribers["x"] == [Int(false, SAFE)]
            && !JsonEq(h.toDouble, Int(false, SAFE), Int(false, SAFE + 1))
  {
    var a, f, b := Int(false, SAFE), Float(SAFE as real), Int(false, SAFE + 1);
    DocAtX(h, a);
    DocAtX(h, f);
    DocAtX(h, b);
    TwoQuietLoads(h, State(Doc(a), None, 0, map["x" := [a]]), Doc(f), Doc(b), "x");
  }

  // ---- Subscribers hold the document's value itself ----

  ghost predicate TracksExact(s: State) {
    forall path, i :: path in s.subscribers && 0 <= i < |s.subscribers[path]| ==>
      s.subscribers[path][i] == At(s.document, path)
  }

  /** No subscribed value changes to another one that the library calls equal. */
  ghost predicate FormsKept(d: IntToDouble, s: State, doc: Json) {
    forall path :: path in s.subscribers && s.subscribers[path] != [] && JsonEq(d, At(s.document, path), At(doc, path)) ==>
      At(s.document, path) == At(doc, path)
  }

  /** A load keeps every subscriber at the document's very value if and only if no such change happens. */
  lemma {:induction false} ExactTrackingExactly(h: Hooks, s: State, doc: Option<Json>)
    requires TracksExact(s) && LoadOutcome(h, doc) == Loaded
    ensures TracksExact(Load(h, s, doc)) <==> FormsKept(h.toDouble, s, Merged(h, doc.value))
  {
    var d, s', merged := h.toDouble, Load(h, s, doc), Merged(h, doc.value);
    forall path | path in s.subscribers && s.subscribers[path] != []
      ensures s'.subscribers[path][0] == At(merged, path) <==>
              (JsonEq(d, At(s.document, path), At(merged, path)) ==> At(s.document, path) == At(merged, path))
    {
      assert s.subscribers[path][0] == At(s.document, path);
    }
  }

  /** A new snapshot always has a larger version than every earlier one. */
  lemma {:induction false} VersionsIncrease(h: Hooks, s: State, docs: seq<Option<Json>>)
    requires Versioned(s)
    ensures Versioned(LoadAll(h, s, docs)) && LoadAll(h, s, docs).versions >= s.versions
    ensures LoadAll(h, s, docs).snapshot == s.snapshot ||
            (LoadAll(h, s, docs).snapshot.Some? && LoadAll(h, s, docs).snapshot.value.version > s.versions)
    decreases |docs|
  {
    if docs != [] { VersionsIncrease(h, Load(h, s, docs[0]), docs[1..]); }
  }

  /** The document replaced by one that the library calls equal: the subscriber keeps the old form. */
  lemma {:induction false} NumericFormMayDiffer(h: Hooks)
    requires h.defaults == Obj(map[]) && (forall v :: h.validate(v) && h.project(v).Some?) && h.toDouble(1) == 1.0
    ensures var s := State(Doc(Int(false, 1)), None, 0, map["x" := [Int(false, 1)]]);
            var s' := Load(h, s, Some(Doc(Float(1.0))));
            && TracksExact(s) && !TracksExact(s') && Tracks(h.toDouble, s')
            && s'.document == Doc(Float(1.0)) && s'.subscribers["x"] == [Int(false, 1)]
  {
    DocAtX(h, Int(false, 1));
    DocAtX(h, Float(1.0));
    var s := State(Doc(Int(false, 1)), None, 0, map["x" := [Int(false, 1)]]);
    var s' := Load(h, s, Some(Doc(Float(1.0))));
    assert s'.subscribers["x"][0] == Int(false, 1);
  }

  // ---- The manager ----

  class Manager {
    const hooks: Hooks
    var document: Json
    var lastGoodDocument: Json
    var snapshot: Option<Snapshot>
    var versionCounter: nat
    var subscribers: map<string, seq<Json>>

    ghost function View(): State
      reads this
    {
      State(document, snapshot, versionCounter, subscribers)
    }

    constructor (hooks: Hooks)
      ensures this.hooks == hooks && View() == State(Null, None, 0, map[])
    {
      this.hooks := hooks;
      document, lastGoodDocument, snapshot, versionCounter, subscribers := Null, Null, None, 0, map[];
    }

    /** Adds a subscriber that starts from the current value. */
    method Subscribe(path: string)
      modifies this`subscribers
      ensures View() == old(View()).(subscribers := subscribers)
      ensures old(Tracks(hooks.toDouble, View())) ==> Tracks(hooks.toDouble, View())
      ensures old(TracksExact(View())) ==> TracksExact(View())
      ensures path in subscribers && subscribers == old(subscribers)[path := subscribers[path]]
      ensures subscribers[path] == (if path in old(subscribers) then old(subscribers)[path] else []) + [At(document, path)]
    {
      var v := JsonPointerAt(document, path);
      var held := if path in subscribers then subscribers[path] else [];
      subscribers := subscribers[path := held + [v]];
      EqReflexive(hooks.toDouble, v);
    }

    static method JsonPointerAt(doc: Json, path: string) returns (v: Json)
      ensures v == At(doc, path)
      ensures v == if Lookup(doc, PathKeys(path)).Some? then Lookup(doc, PathKeys(path)).value else Null
    {
      var found := WalkDotPath(doc, path);
      v := if found.Some? then found.value else Null;
    }

    /** `doc` is what the loader made of the file, if anything. */
    method LoadFile(doc: Option<Json>) returns (r: Outcome)
      modifies this
      ensures View() == Load(hooks, old(View()), doc) && r == LoadOutcome(hooks, doc)
      ensures lastGoodDocument == if r == Refused then old(lastGoodDocument) else document
    {
      if doc.None? { return Refused; }
      var merged := DeepMerge(hooks.defaults, doc.value);
      if !hooks.validate(merged) { return Refused; }
      var oldDoc := document;
      document := merged;
      lastGoodDocument := document;
      versionCounter := versionCounter + 1;
      var sections := hooks.project(document);
      if sections.None? { return Threw; }
      snapshot := Some(Snapshot(versionCounter, sections.value));
      NotifySubscribers(document, oldDoc);
      r := Loaded;
    }

    /** Gives every subscriber of a changed path the new value. */
    method NotifySubscribers(newDoc: Json, oldDoc: Json)
      modifies this`subscribers
      ensures subscribers == Notified(hooks.toDouble, old(subscribers), oldDoc, newDoc)
    {
      ghost var subs := subscribers;
      var todo := subscribers.Keys;
      assert PartlyNotified(hooks.toDouble, subs, subscribers, todo, oldDoc, newDoc);
      while todo != {}
        invariant PartlyNotified(hooks.toDouble, subs, subscribers, todo, oldDoc, newDoc)
        decreases |todo|
      {
        var path :| path in todo;
        var oldV := JsonPointerAt(oldDoc, path);
        var newV := JsonPointerAt(newDoc, path);
        var held := subscribers[path];
        if !JsonEq(hooks.toDouble, oldV, newV) {
          held := seq(|held|, _ => newV);
        }
        NotifyOnePath(hooks.toDouble, subs, subscribers, todo, oldDoc, newDoc, path);
        subscribers := subscribers[path := held];
        todo := todo - {path};
      }
      AllNotified(hooks.toDouble, subs, subscribers, oldDoc, newDoc);
    }
  }

  /** Paths in `todo` still have their old values, the others have been notified. */
  ghost predicate PartlyNotified(d: IntToDouble, subs: map<string, seq<Json>>, now: map<string, seq<Json>>,
                                 todo: set<string>, before: Json, after: Json)
  {
    && todo <= subs.Keys == now.Keys
    && (forall path :: path in todo ==> now[path] == subs[path])
    && (forall path :: path in now && path !in todo ==> now[path] == NotifiedAt(d, subs[path], before, after, path))
  }

  lemma {:induction false} NotifyOnePath(d: IntToDouble, subs: map<string, seq<Json>>, now: map<string, seq<Json>>, todo: set<string>,
                      before: Json, after: Json, path: string)
    requires PartlyNotified(d, subs, now, todo, before, after) && path in todo
    ensures PartlyNotified(d, subs, now[path := NotifiedAt(d, now[path], before, after, path)], todo - {path}, before, after)
  {
    assert now[path := NotifiedAt(d, now[path], before, after, path)].Keys == subs.Keys;
  }

  lemma {:induction false} AllNotified(d: IntToDouble, subs: map<string, seq<Json>>, now: map<string, seq<Json>>, before: Json, after: Json)
    requires PartlyNotified(d, subs, now, {}, before, after)
    ensures now == Notified(d, subs, before, after)
  {
    assert now.Keys == Notified(d, subs, before, after).Keys;
  }
}
