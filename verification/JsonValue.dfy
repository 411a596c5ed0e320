/** JSON documents: equality as the JSON library compares values, lookup by keys, and deep merging. */
module JsonValue {
  import opened Search

  datatype Json =
    | Null
    | Bool(b: bool)
    | Int(signed: bool, n: int)  // `number_integer` or `number_unsigned`
    | Float(x: real)
    | Str(s: string)
    | Arr(items: seq<Json>)
    | Obj(fields: map<string, Json>)

  // ---- Equality ----

  /** The conversion of an integer to `double`: any function, since large integers are rounded. */
  type IntToDouble = int -> real

  /** The conversion of an unsigned 64-bit integer to a signed one. */
  function AsSigned(n: int): int { if n < 0x8000_0000_0000_0000 then n else n - 0x1_0000_0000_0000_0000 }

  /**
   Equality as the library decides it: an integer is converted before it is compared with a
   floating-point number, and an unsigned integer before it is compared with a signed one.
   */
  predicate JsonEq(d: IntToDouble, a: Json, b: Json)
    decreases a
  {
    match (a, b)
    case (Int(_, m), Float(y)) => d(m) == y
    case (Float(x), Int(_, n)) => x == d(n)
    case (Int(s, m), Int(t, n)) => if s == t then m == n else AsSigned(m) == AsSigned(n)
    case (Arr(p), Arr(q)) => |p| == |q| && forall i :: 0 <= i < |p| ==> JsonEq(d, p[i], q[i])
    case (Obj(f), Obj(g)) => f.Keys == g.Keys && forall k :: k in f ==> JsonEq(d, f[k], g[k])
    case _ => a == b
  }

  lemma {:induction false} EqReflexive(d: IntToDouble, a: Json)
    ensures JsonEq(d, a, a)
    decreases a
  {
    match a {
      case Arr(p) => forall i | 0 <= i < |p| ensures JsonEq(d, p[i], p[i]) { EqReflexive(d, p[i]); }
      case Obj(f) => forall k | k in f ensures JsonEq(d, f[k], f[k]) { EqReflexive(d, f[k]); }
      case _ =>
    }
  }

  lemma {:induction false} EqSymmetric(d: IntToDouble, a: Json, b: Json)
    requires JsonEq(d, a, b)
    ensures JsonEq(d, b, a)
    decreases a
  {
    match (a, b) {
      case (Arr(p), Arr(q)) => forall i | 0 <= i < |q| ensures JsonEq(d, q[i], p[i]) { EqSymmetric(d, p[i], q[i]); }
      case (Obj(f), Obj(g)) => forall k | k in g ensures JsonEq(d, g[k], f[k]) { EqSymmetric(d, f[k], g[k]); }
      case _ =>
    }
  }

  /** How numbers compare: like with like by value, signed with unsigned after conversion to signed, integers with floats as floats. */
  lemma {:induction false} NumbersCompare(d: IntToDouble, s: bool, m: int, n: int, x: real, y: real)
    ensures JsonEq(d, Int(s, m), Int(s, n)) <==> m == n
    ensures JsonEq(d, Float(x), Float(y)) <==> x == y
    ensures JsonEq(d, Int(s, m), Float(x)) <==> d(m) == x
    ensures 0 <= m < 0x8000_0000_0000_0000 && 0 <= n < 0x8000_0000_0000_0000 ==>
              (JsonEq(d, Int(true, m), Int(false, n)) <==> m == n)
    ensures -0x8000_0000_0000_0000 <= m < 0 <= n < 0x1_0000_0000_0000_0000 ==>
              (JsonEq(d, Int(true, m), Int(false, n)) <==> n == m + 0x1_0000_0000_0000_0000)
  {
  }

  predicate HoldsNoNumber(v: Json)
    decreases v
  {
    match v
    case Int(_, _) => false
    case Float(_) => false
    case Arr(p) => forall i :: 0 <= i < |p| ==> HoldsNoNumber(p[i])
    case Obj(f) => forall k :: k in f ==> HoldsNoNumber(f[k])
    case _ => true
  }

  /** Apart from numbers, equality is identity. */
  lemma {:induction false} EqWithoutNumbers(d: IntToDouble, a: Json, b: Json)
    requires HoldsNoNumber(a)
    ensures JsonEq(d, a, b) <==> a == b
    decreases a
  {
    if a == b { EqReflexive(d, a); }
    if JsonEq(d, a, b) {
      if a.Arr? {
        forall i | 0 <= i < |a.items| ensures a.items[i] == b.items[i] { EqWithoutNumbers(d, a.items[i], b.items[i]); }
        assert a.items == b.items;
      } else if a.Obj? {
        forall k | k in a.fields ensures a.fields[k] == b.fields[k] { EqWithoutNumbers(d, a.fields[k], b.fields[k]); }
        assert a.fields == b.fields;
      }
    }
  }

  // ---- When equality is transitive ----

  /** The integers that documents may hold. */
  type Integers = Json -> bool

  /** Every integer in `v` is an allowed one. */
  predicate IntegersIn(allowed: Integers, v: Json)
    decreases v
  {
    match v
    case Int(_, _) => allowed(v)
    case Arr(p) => forall i :: 0 <= i < |p| ==> IntegersIn(allowed, p[i])
    case Obj(f) => forall k :: k in f ==> IntegersIn(allowed, f[k])
    case _ => true
  }

  /** Allowed integers are equal exactly when their conversions are. */
  ghost predicate Faithful(d: IntToDouble, allowed: Integers) {
    forall a: Json, b: Json :: a.Int? && b.Int? && allowed(a) && allowed(b) ==> (JsonEq(d, a, b) <==> d(a.n) == d(b.n))
  }

  lemma {:induction false} EqTransitive(d: IntToDouble, allowed: Integers, a: Json, b: Json, c: Json)
    requires Faithful(d, allowed) && IntegersIn(allowed, a) && IntegersIn(allowed, b) && IntegersIn(allowed, c)
    requires JsonEq(d, a, b) && JsonEq(d, b, c)
    ensures JsonEq(d, a, c)
    decreases a
  {
    if a.Arr? {
      forall i | 0 <= i < |a.items| ensures JsonEq(d, a.items[i], c.items[i]) {
        EqTransitive(d, allowed, a.items[i], b.items[i], c.items[i]);
      }
    } else if a.Obj? {
      forall k | k in a.fields ensures JsonEq(d, a.fields[k], c.fields[k]) {
        EqTransitive(d, allowed, a.fields[k], b.fields[k], c.fields[k]);
      }
    }
  }

  /** Documents whose integers are all allowed compare transitively. */
  ghost predicate TransitiveOn(d: IntToDouble, allowed: Integers) {
    forall a, b, c ::
      (IntegersIn(allowed, a) && IntegersIn(allowed, b) && IntegersIn(allowed, c) && JsonEq(d, a, b) && JsonEq(d, b, c))
      ==> JsonEq(d, a, c)
  }

  /** Two allowed integers on which equality and conversion differ, and a value between them. */
  lemma {:induction false} Slip(d: IntToDouble, a: Json, b: Json) returns (x: Json, y: Json, z: Json)
    requires a.Int? && b.Int? && (JsonEq(d, a, b) <==> d(a.n) != d(b.n))
    ensures JsonEq(d, x, y) && JsonEq(d, y, z) && !JsonEq(d, x, z)
    ensures {x, y, z} <= {a, b, Float(d(a.n))}
  {
    var f := Float(d(a.n));
    if JsonEq(d, a, b) { x, y, z := f, a, b; } else { x, y, z := a, f, b; }
  }

  /** Equality is transitive on documents with allowed integers if and only if the conversion is faithful to them. */
  lemma {:induction false} TransitiveExactly(d: IntToDouble, allowed: Integers)
    ensures TransitiveOn(d, allowed) <==> Faithful(d, allowed)
  {
    if Faithful(d, allowed) {
      forall a, b, c | IntegersIn(allowed, a) && IntegersIn(allowed, b) && IntegersIn(allowed, c)
                       && JsonEq(d, a, b) && JsonEq(d, b, c) ensures JsonEq(d, a, c) {
        EqTransitive(d, allowed, a, b, c);
      }
    } else {
      var a: Json, b: Json :| a.Int? && b.Int? && allowed(a) && allowed(b) && (JsonEq(d, a, b) <==> d(a.n) != d(b.n));
      var x, y, z := Slip(d, a, b);
    }
  }

  const SAFE := 0x20_0000_0000_0000

  /** Integers up to `2^53` in size, which doubles hold exactly. */
  predicate IsSafe(v: Json) { v.Int? && -SAFE <= v.n <= SAFE }

  lemma {:induction false} SafeIntegersAreFaithful(d: IntToDouble)
    requires forall n :: -SAFE <= n <= SAFE ==> d(n) == n as real
    ensures Faithful(d, IsSafe)
  {
  }

  // ---- Lookup ----

  /** The value reached by following keys through objects. */
  function Lookup(doc: Json, keys: seq<string>): Option<Json>
    decreases |keys|
  {
    if keys == [] then Some(doc)
    else if doc.Obj? && keys[0] in doc.fields then Lookup(doc.fields[keys[0]], keys[1..])
    else None
  }

  function SplitDots(path: string): (keys: seq<string>)
    ensures keys != []
    decreases |path|
  {
    match IndexOf(path, '.', 0)
    case None => [path]
    case Some(k) => [path[..k]] + SplitDots(path[k + 1..])
  }

  function JoinDots(keys: seq<string>): string
    requires keys != []
  {
    if |keys| == 1 then keys[0] else keys[0] + "." + JoinDots(keys[1..])
  }

  /** The keys of a path are the texts between its dots. */
  lemma {:induction false} SplitDotsExactly(path: string)
    ensures JoinDots(SplitDots(path)) == path && forall i :: 0 <= i < |SplitDots(path)| ==> '.' !in SplitDots(path)[i]
    decreases |path|
  {
    match IndexOf(path, '.', 0) {
      case None => assert SplitDots(path) == [path];
      case Some(k) =>
        var rest := SplitDots(path[k + 1..]);
        SplitDotsExactly(path[k + 1..]);
        assert SplitDots(path) == [path[..k]] + rest && SplitDots(path)[1..] == rest;
        assert path == path[..k] + "." + path[k + 1..];
    }
  }

  /** The empty path is the whole document. */
  function PathKeys(path: string): seq<string> { if path == "" then [] else SplitDots(path) }

  method WalkDotPath(node: Json, path: string) returns (r: Option<Json>)
    ensures r == Lookup(node, PathKeys(path))
  {
    if path == "" { return Some(node); }
    var current, start := node, 0;
    assert path[0..] == path;
    while start <= |path|
      invariant start <= |path| && FoundFrom(current, path, start) == FoundFrom(node, path, 0)
      decreases |path| - start
    {
      OneKey(path, start, current);
      var dot := IndexOf(path, '.', start);
      var key := if dot.None? then path[start..] else path[start..dot.value];
      if !current.Obj? || key !in current.fields { return None; }
      if dot.None? { return Some(current.fields[key]); }
      current := current.fields[key];
      start := dot.value + 1;
    }
    assert false;
  }

  /** What the path from `start` on leads to. */
  ghost function FoundFrom(doc: Json, path: string, start: nat): Option<Json>
    requires start <= |path|
  {
    Lookup(doc, SplitDots(path[start..]))
  }

  /** One turn of the loop: the first key, and the rest of the path after it. */
  lemma {:induction false} OneKey(path: string, start: nat, doc: Json)
    requires start <= |path|
    ensures var dot := IndexOf(path, '.', start);
            var key := if dot.None? then path[start..] else path[start..dot.value];
            FoundFrom(doc, path, start) ==
            if !doc.Obj? || key !in doc.fields then None
            else if dot.None? then Some(doc.fields[key])
            else FoundFrom(doc.fields[key], path, dot.value + 1)
  {
    SplitDotsAt(path, start);
    LookupFirst(doc, SplitDots(path[start..]));
  }

  lemma {:induction false} LookupFirst(doc: Json, keys: seq<string>)
    requires keys != []
    ensures Lookup(doc, keys) == if doc.Obj? && keys[0] in doc.fields then Lookup(doc.fields[keys[0]], keys[1..]) else None
  {
  }

  /** The keys of the path from `start` on. */
  lemma {:induction false} SplitDotsAt(path: string, start: nat)
    requires start <= |path|
    ensures var keys, dot := SplitDots(path[start..]), IndexOf(path, '.', start);
            && keys[0] == (if dot.None? then path[start..] else path[start..dot.value])
            && keys[1..] == (if dot.None? then [] else SplitDots(path[dot.value + 1..]))
  {
    SuffixIndex(path, '.', start);
    var rest, dot := path[start..], IndexOf(path, '.', start);
    if dot.Some? {
      assert rest[..dot.value - start] == path[start..dot.value];
      assert rest[dot.value - start + 1..] == path[dot.value + 1..];
    }
  }

  /** An index found from `start`, seen from the text that begins there. */
  lemma {:induction false} SuffixIndex(s: string, c: char, start: nat)
    requires start <= |s|
    ensures IndexOf(s[start..], c, 0) ==
            match IndexOf(s, c, start) case None => None case Some(k) => Some(k - start)
  {
    var t := s[start..];
    assert forall j :: 0 <= j < |t| ==> t[j] == s[start + j];
    match IndexOf(s, c, start) {
      case None => assert IndexOf(t, c, 0) == None;
      case Some(k) => IndexOfIs(t, c, 0, k - start);
    }
  }

  // ---- Deep merge ----

  predicate MergesDeeper(dst: map<string, Json>, src: map<string, Json>, k: string) {
    k in dst && k in src && dst[k].Obj? && src[k].Obj?
  }

  /** `src` laid over `dst`: objects are merged key by key, anything else is replaced. */
  function Merge(dst: Json, src: Json): Json
    decreases src
  {
    if !dst.Obj? || !src.Obj? then src
    else Obj(map k | k in dst.fields.Keys + src.fields.Keys ::
               if MergesDeeper(dst.fields, src.fields, k) then Merge(dst.fields[k], src.fields[k])
               else if k in src.fields then src.fields[k] else dst.fields[k])
  }

  /** How far the loop of `DeepMerge` has come: keys in `todo` are still as in `dst`. */
  ghost predicate PartlyMerged(dst: Json, src: Json, fields: map<string, Json>, todo: set<string>)
    requires dst.Obj? && src.Obj?
  {
    && todo <= src.fields.Keys
    && fields.Keys == dst.fields.Keys + (src.fields.Keys - todo)
    && (forall k :: k in todo && k in dst.fields ==> fields[k] == dst.fields[k])
    && (forall k :: k in fields && k !in todo ==> fields[k] == Merge(dst, src).fields[k])
  }

  lemma {:induction false} MergeOneKey(dst: Json, src: Json, fields: map<string, Json>, todo: set<string>, key: string, v: Json)
    requires dst.Obj? && src.Obj? && PartlyMerged(dst, src, fields, todo) && key in todo
    requires v == if MergesDeeper(dst.fields, src.fields, key) then Merge(dst.fields[key], src.fields[key])
                  else src.fields[key]
    ensures PartlyMerged(dst, src, fields[key := v], todo - {key})
  {
    assert Merge(dst, src).fields[key] == v;
    assert fields[key := v].Keys == dst.fields.Keys + (src.fields.Keys - (todo - {key}));
  }

  lemma {:induction false} MergeStarts(dst: Json, src: Json)
    requires dst.Obj? && src.Obj?
    ensures PartlyMerged(dst, src, dst.fields, src.fields.Keys)
  {
    assert dst.fields.Keys == dst.fields.Keys + (src.fields.Keys - src.fields.Keys);
  }

  lemma {:induction false} MergeEnds(dst: Json, src: Json, fields: map<string, Json>)
    requires dst.Obj? && src.Obj? && PartlyMerged(dst, src, fields, {})
    ensures Obj(fields) == Merge(dst, src)
  {
    assert fields.Keys == Merge(dst, src).fields.Keys;
    assert fields == Merge(dst, src).fields;
  }

  method DeepMerge(dst: Json, src: Json) returns (out: Json)
    ensures out == Merge(dst, src)
    decreases src
  {
    if !src.Obj? || !dst.Obj? { return src; }
    var fields := dst.fields;
    var todo := src.fields.Keys;
    MergeStarts(dst, src);
    while todo != {}
      invariant PartlyMerged(dst, src, fields, todo)
      decreases |todo|
    {
      var key :| key in todo;
      var v := src.fields[key];
      assert key in fields <==> key in dst.fields;
      if key in fields && fields[key].Obj? && v.Obj? {
        v := DeepMerge(fields[key], v);
      }
      MergeOneKey(dst, src, fields, todo, key, v);
      fields, todo := fields[key := v], todo - {key};
    }
    MergeEnds(dst, src, fields);
    out := Obj(fields);
  }

  // ---- The merge law, by key path ----

  /** The value the merge leaves where the source has `v` and the destination has `u`, if anything. */
  function Over(u: Option<Json>, v: Json): Json {
    if u.Some? then Merge(u.value, v) else v
  }

  /** Where the source has a value, it is laid over the destination's. */
  lemma {:induction false} MergeWherePresent(dst: Json, src: Json, keys: seq<string>)
    requires Lookup(src, keys).Some?
    ensures Lookup(Merge(dst, src), keys) == Some(Over(Lookup(dst, keys), Lookup(src, keys).value))
    decreases |keys|
  {
    if keys != [] && dst.Obj? {
      var k := keys[0];
      if MergesDeeper(dst.fields, src.fields, k) {
        MergeWherePresent(dst.fields[k], src.fields[k], keys[1..]);
      } else if k in dst.fields {
        ReplacedWhole(dst.fields[k], src.fields[k], keys[1..]);
      }
    }
  }

  /** Replacing a value that is not merged key by key. */
  lemma {:induction false} ReplacedWhole(u: Json, v: Json, keys: seq<string>)
    requires !(u.Obj? && v.Obj?) && Lookup(v, keys).Some?
    ensures Lookup(v, keys) == Some(Over(Lookup(u, keys), Lookup(v, keys).value))
  {
    if keys != [] { assert !u.Obj?; }
  }

  /** In particular a source value that is not an object wins, and hides everything below it. */
  lemma {:induction false} NonObjectWins(dst: Json, src: Json, keys: seq<string>, below: seq<string>)
    requires Lookup(src, keys).Some? && !Lookup(src, keys).value.Obj?
    ensures Lookup(Merge(dst, src), keys) == Lookup(src, keys)
    ensures below != [] ==> Lookup(Merge(dst, src), keys + below) == None
  {
    MergeWherePresent(dst, src, keys);
    LookupInTwo(Merge(dst, src), keys, below);
  }

  lemma {:induction false} LookupInTwo(doc: Json, a: seq<string>, b: seq<string>)
    ensures Lookup(doc, a + b) == if Lookup(doc, a).Some? then Lookup(Lookup(doc, a).value, b) else None
    decreases |a|
  {
    if a == [] {
      assert [] + b == b;
    } else {
      assert (a + b)[1..] == a[1..] + b;
      if doc.Obj? && a[0] in doc.fields { LookupInTwo(doc.fields[a[0]], a[1..], b); }
    }
  }

  /** The source has objects along the path but stops before its end. */
  predicate Silent(src: Json, keys: seq<string>)
    decreases |keys|
  {
    keys != [] && src.Obj? && (keys[0] in src.fields ==> Silent(src.fields[keys[0]], keys[1..]))
  }

  /** Where the source is silent, the destination's value survives. */
  lemma {:induction false} MergeWhereSilent(dst: Json, src: Json, keys: seq<string>)
    requires Silent(src, keys)
    ensures Lookup(Merge(dst, src), keys) == Lookup(dst, keys)
    decreases |keys|
  {
    if dst.Obj? && keys[0] in src.fields {
      if MergesDeeper(dst.fields, src.fields, keys[0]) {
        MergeWhereSilent(dst.fields[keys[0]], src.fields[keys[0]], keys[1..]);
      } else {
        SilentHasNothing(src.fields[keys[0]], keys[1..]);
      }
    } else if !dst.Obj? {
      SilentHasNothing(src, keys);
    }
  }

  lemma {:induction false} SilentHasNothing(src: Json, keys: seq<string>)
    requires Silent(src, keys)
    ensures Lookup(src, keys) == None
    decreases |keys|
  {
    if keys[0] in src.fields { SilentHasNothing(src.fields[keys[0]], keys[1..]); }
  }

  /** Every path falls under one of the laws: present, below a non-object, or silent. */
  lemma {:induction false} LawsCoverEveryPath(src: Json, keys: seq<string>)
    ensures Lookup(src, keys).Some? || Silent(src, keys) ||
            exists n :: 0 <= n < |keys| && Lookup(src, keys[..n]).Some? && !Lookup(src, keys[..n]).value.Obj?
    decreases |keys|
  {
    if keys != [] {
      if !src.Obj? {
        assert Lookup(src, keys[..0]) == Some(src);
      } else if keys[0] in src.fields {
        var sub, rest := src.fields[keys[0]], keys[1..];
        LawsCoverEveryPath(sub, rest);
        if !Lookup(src, keys).Some? && !Silent(src, keys) {
          var n :| 0 <= n < |rest| && Lookup(sub, rest[..n]).Some? && !Lookup(sub, rest[..n]).value.Obj?;
          assert keys[..n + 1][1..] == rest[..n];
          assert Lookup(src, keys[..n + 1]) == Lookup(sub, rest[..n]);
        }
      }
    }
  }

  /** Merging the same source twice is merging it once. */
  lemma {:induction false} MergeIdempotent(dst: Json, src: Json)
    ensures Merge(Merge(dst, src), src) == Merge(dst, src)
    decreases src
  {
    if src.Obj? {
      var m := Merge(dst, src);
      var twice := Merge(m, src);
      forall k | k in m.fields ensures k in twice.fields && twice.fields[k] == m.fields[k] {
        if k in src.fields && src.fields[k].Obj? {
          if dst.Obj? && k in dst.fields && dst.fields[k].Obj? {
            MergeIdempotent(dst.fields[k], src.fields[k]);
          } else {
            MergeWithItself(src.fields[k]);
          }
        }
      }
      assert twice.fields.Keys == m.fields.Keys;
    }
  }

  lemma {:induction false} MergeWithItself(src: Json)
    ensures Merge(src, src) == src
    decreases src
  {
    if src.Obj? {
      forall k | k in src.fields ensures Merge(src, src).fields[k] == src.fields[k] {
        MergeWithItself(src.fields[k]);
      }
      assert Merge(src, src).fields == src.fields;
    }
  }

  // ---- Integers of merged documents ----

  lemma {:induction false} MergeKeepsIntegers(allowed: Integers, dst: Json, src: Json)
    requires IntegersIn(allowed, dst) && IntegersIn(allowed, src)
    ensures IntegersIn(allowed, Merge(dst, src))
    decreases src
  {
    if dst.Obj? && src.Obj? {
      var m := Merge(dst, src);
      forall k | k in m.fields ensures IntegersIn(allowed, m.fields[k]) {
        if MergesDeeper(dst.fields, src.fields, k) { MergeKeepsIntegers(allowed, dst.fields[k], src.fields[k]); }
      }
    }
  }

  lemma {:induction false} LookupKeepsIntegers(allowed: Integers, doc: Json, keys: seq<string>)
    requires IntegersIn(allowed, doc) && Lookup(doc, keys).Some?
    ensures IntegersIn(allowed, Lookup(doc, keys).value)
    decreases |keys|
  {
    if keys != [] { LookupKeepsIntegers(allowed, doc.fields[keys[0]], keys[1..]); }
  }
}
