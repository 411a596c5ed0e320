/** Parsing of `application/x-www-form-urlencoded` bodies, and its round trip. */
module FormData {
  import opened Bytes
  import opened Search
  import opened PercentCoding

  const AMPERSAND: Byte := 38
  const EQUALS: Byte := 61
  const BRACKETS: ByteString := [91, 93]

  datatype Config = Config(maxFieldSize: nat, supportArrays: bool)

  datatype Field = Field(name: ByteString, values: seq<ByteString>, isArray: bool)

  type Form = map<ByteString, Field>

  datatype Parsed = Parsed(form: Form) | TooLarge

  /** A name and a value. */
  datatype Pair = Pair(name: ByteString, value: ByteString)

  // ---- Names ----

  predicate IsArrayField(c: Config, name: ByteString) {
    c.supportArrays && |name| >= 2 && name[|name| - 2..] == BRACKETS
  }

  function NormalizeName(c: Config, name: ByteString): ByteString {
    if IsArrayField(c, name) then name[..|name| - 2] else name
  }

  /** With array support a name ending in `[]` is an array field under the name before it; every other name stands for itself. */
  lemma {:induction false} NamesExactly(c: Config, base: ByteString)
    ensures NormalizeName(c, base + Ascii("[]")) == (if c.supportArrays then base else base + Ascii("[]"))
    ensures IsArrayField(c, base + Ascii("[]")) == c.supportArrays
    ensures (|base| < 2 || base[|base| - 2..] != Ascii("[]")) ==> NormalizeName(c, base) == base && !IsArrayField(c, base)
  {
    var name := base + Ascii("[]");
    assert Ascii("[]") == BRACKETS;
    assert name[|name| - 2..] == BRACKETS && name[..|name| - 2] == base;
  }

  // ---- Collecting pairs ----

  /** A repeated name adds a value to its field; a new one starts a field. */
  function Add(c: Config, form: Form, p: Pair): Form {
    var key := NormalizeName(c, p.name);
    if key in form then form[key := form[key].(values := form[key].values + [p.value], isArray := true)]
    else form[key := Field(key, [p.value], IsArrayField(c, p.name))]
  }

  function Collect(c: Config, form: Form, ps: seq<Pair>): Form
    decreases |ps|
  {
    if ps == [] then form else Collect(c, Add(c, form, ps[0]), ps[1..])
  }

  /** The values given for a normalised name, in order. */
  function ValuesFor(c: Config, ps: seq<Pair>, key: ByteString): seq<ByteString> {
    if ps == [] then []
    else (if NormalizeName(c, ps[0].name) == key then [ps[0].value] else []) + ValuesFor(c, ps[1..], key)
  }

  function ValuesIn(form: Form, key: ByteString): seq<ByteString> {
    if key in form then form[key].values else []
  }

  /** Every name ends up with exactly its values, in order, after those it already had. */
  lemma {:induction false} CollectedValues(c: Config, form: Form, ps: seq<Pair>, key: ByteString)
    ensures ValuesIn(Collect(c, form, ps), key) == ValuesIn(form, key) + ValuesFor(c, ps, key)
    ensures key in Collect(c, form, ps) <==> key in form || ValuesFor(c, ps, key) != []
    decreases |ps|
  {
    if ps == [] {
      assert ValuesIn(form, key) + [] == ValuesIn(form, key);
    } else {
      CollectedValues(c, Add(c, form, ps[0]), ps[1..], key);
      if NormalizeName(c, ps[0].name) == key {
        assert ValuesIn(Add(c, form, ps[0]), key) == ValuesIn(form, key) + [ps[0].value];
        assert ValuesIn(form, key) + [ps[0].value] + ValuesFor(c, ps[1..], key)
            == ValuesIn(form, key) + ([ps[0].value] + ValuesFor(c, ps[1..], key));
      } else {
        assert [] + ValuesFor(c, ps[1..], key) == ValuesFor(c, ps[1..], key);
      }
    }
  }

  /** The first pair for `key` uses the array notation. */
  predicate StartsAsArray(c: Config, ps: seq<Pair>, key: ByteString) {
    ps != [] && if NormalizeName(c, ps[0].name) == key then IsArrayField(c, ps[0].name)
                else StartsAsArray(c, ps[1..], key)
  }

  /** A field is an array if it was one, if it got a further value, or if its first name said so. */
  lemma {:induction false} CollectedArrayFlag(c: Config, form: Form, ps: seq<Pair>, key: ByteString)
    requires key in Collect(c, form, ps)
    ensures Collect(c, form, ps)[key].isArray <==>
            if key in form then form[key].isArray || ValuesFor(c, ps, key) != []
            else |ValuesFor(c, ps, key)| >= 2 || StartsAsArray(c, ps, key)
    decreases |ps|
  {
    if ps != [] {
      CollectedArrayFlag(c, Add(c, form, ps[0]), ps[1..], key);
    }
  }

  /** Each field is stored under its own name. */
  ghost predicate NamesMatch(form: Form) {
    forall key :: key in form ==> form[key].name == key
  }

  lemma {:induction false} CollectedNames(c: Config, form: Form, ps: seq<Pair>)
    requires NamesMatch(form)
    ensures NamesMatch(Collect(c, form, ps))
    decreases |ps|
  {
    if ps != [] { CollectedNames(c, Add(c, form, ps[0]), ps[1..]); }
  }

  // ---- Parsing ----

  function FieldName(pair: ByteString): ByteString {
    match IndexOf(pair, EQUALS, 0)
    case None => pair
    case Some(k) => pair[..k]
  }

  function FieldValue(pair: ByteString): ByteString {
    match IndexOf(pair, EQUALS, 0)
    case None => []
    case Some(k) => pair[k + 1..]
  }

  predicate Fits(c: Config, pair: ByteString) {
    |FieldName(pair)| <= c.maxFieldSize && |FieldValue(pair)| <= c.maxFieldSize
  }

  function DecodePair(pair: ByteString, conv: Conversion): Pair {
    Pair(Decode(FieldName(pair), conv), Decode(FieldValue(pair), conv))
  }

  /** The pair at the front of `data`, and what follows its separator. */
  function Split(data: ByteString): (r: (ByteString, ByteString))
    ensures data != [] ==> |r.1| < |data|
  {
    match IndexOf(data, AMPERSAND, 0)
    case None => (data, [])
    case Some(k) => (data[..k], data[k + 1..])
  }

  function ParseOnto(c: Config, form: Form, data: ByteString, conv: Conversion): Parsed
    decreases |data|
  {
    if data == [] then Parsed(form)
    else
      var (pair, rest) := Split(data);
      if pair == [] then ParseOnto(c, form, rest, conv)
      else if !Fits(c, pair) then TooLarge
      else ParseOnto(c, Add(c, form, DecodePair(pair, conv)), rest, conv)
  }

  method ParsePairs(c: Config, data: ByteString, conv: Conversion) returns (r: Parsed)
    ensures r == ParseOnto(c, map[], data, conv)
  {
    var form: Form := map[];
    var rest := data;
    while rest != []
      invariant ParseOnto(c, form, rest, conv) == ParseOnto(c, map[], data, conv)
      decreases |rest|
    {
      var (pair, after) := Split(rest);
      if pair != [] {
        if !Fits(c, pair) { return TooLarge; }
        var name := UrlDecode(FieldName(pair), conv);
        var value := UrlDecode(FieldValue(pair), conv);
        var key := NormalizeName(c, name);
        if key in form {
          form := form[key := form[key].(values := form[key].values + [value], isArray := true)];
        } else {
          form := form[key := Field(key, [value], IsArrayField(c, name))];
        }
      }
      rest := after;
    }
    r := Parsed(form);
  }

  /** A pair is split at its first `=`; without one it is a name with an empty value. */
  lemma {:induction false} PairSplitsExactly(name: ByteString, value: ByteString)
    requires 61 !in name
    ensures FieldName(name + Ascii("=") + value) == name && FieldValue(name + Ascii("=") + value) == value
    ensures FieldName(name) == name && FieldValue(name) == []
  {
    var pair := name + Ascii("=") + value;
    assert pair[|name|] == EQUALS && forall j :: 0 <= j < |name| ==> pair[j] == name[j];
    IndexOfIs(pair, EQUALS, 0, |name|);
    assert pair[..|name|] == name && pair[|name| + 1..] == value;
    assert IndexOf(name, EQUALS, 0) == None;
  }

  /** Pairs are separated by `&`, and empty ones are skipped. */
  lemma {:induction false} PairsSeparated(c: Config, form: Form, pair: ByteString, rest: ByteString, conv: Conversion)
    requires 38 !in pair
    ensures ParseOnto(c, form, pair + Ascii("&") + rest, conv) ==
            if pair == [] then ParseOnto(c, form, rest, conv)
            else if |FieldName(pair)| > c.maxFieldSize || |FieldValue(pair)| > c.maxFieldSize then TooLarge
            else ParseOnto(c, Add(c, form, DecodePair(pair, conv)), rest, conv)
  {
    var data := pair + Ascii("&") + rest;
    assert data[|pair|] == AMPERSAND && forall j :: 0 <= j < |pair| ==> data[j] == pair[j];
    IndexOfIs(data, AMPERSAND, 0, |pair|);
    assert data[..|pair|] == pair && data[|pair| + 1..] == rest;
  }

  // ---- The round trip ----

  function EncodePair(p: Pair): ByteString { Encode(p.name) + [EQUALS] + Encode(p.value) }

  /** The body that carries a list of pairs. */
  function EncodeForm(ps: seq<Pair>): ByteString {
    if ps == [] then []
    else if |ps| == 1 then EncodePair(ps[0])
    else EncodePair(ps[0]) + [AMPERSAND] + EncodeForm(ps[1..])
  }

  predicate PairFits(c: Config, p: Pair) {
    |Encode(p.name)| <= c.maxFieldSize && |Encode(p.value)| <= c.maxFieldSize
  }

  lemma {:induction false} EncodedPairSplits(p: Pair)
    ensures FieldName(EncodePair(p)) == Encode(p.name) && FieldValue(EncodePair(p)) == Encode(p.value)
    ensures forall i :: 0 <= i < |EncodePair(p)| ==> EncodePair(p)[i] != AMPERSAND
  {
    var e, n, v := EncodePair(p), Encode(p.name), Encode(p.value);
    EncodedAlphabet(p.name);
    EncodedAlphabet(p.value);
    assert forall i :: 0 <= i < |n| ==> e[i] == n[i];
    IndexOfIs(e, EQUALS, 0, |n|);
    assert e[..|n|] == n && e[|n| + 1..] == v;
  }

  lemma {:induction false} EncodedPairReads(p: Pair, conv: Conversion)
    ensures FieldName(EncodePair(p)) == Encode(p.name) && FieldValue(EncodePair(p)) == Encode(p.value)
    ensures DecodePair(EncodePair(p), conv) == p
    ensures forall i :: 0 <= i < |EncodePair(p)| ==> EncodePair(p)[i] != AMPERSAND
  {
    EncodedPairSplits(p);
    DecodeInvertsEncode(p.name, conv);
    DecodeInvertsEncode(p.value, conv);
  }

  lemma {:induction false} SplitEncoded(ps: seq<Pair>, conv: Conversion)
    requires ps != []
    ensures EncodeForm(ps) != [] && Split(EncodeForm(ps)) == (EncodePair(ps[0]), EncodeForm(ps[1..]))
  {
    EncodedPairReads(ps[0], conv);
    var e, data := EncodePair(ps[0]), EncodeForm(ps);
    if |ps| == 1 {
      assert IndexOf(data, AMPERSAND, 0) == None;
    } else {
      assert forall i :: 0 <= i < |e| ==> data[i] == e[i];
      IndexOfIs(data, AMPERSAND, 0, |e|);
      assert data[..|e|] == e && data[|e| + 1..] == EncodeForm(ps[1..]);
    }
  }

  /** Parsing an encoded list collects exactly its pairs, or fails when one is too large. */
  lemma {:induction false} ParseInvertsEncode(c: Config, form: Form, ps: seq<Pair>, conv: Conversion)
    ensures ParseOnto(c, form, EncodeForm(ps), conv) ==
            if forall i :: 0 <= i < |ps| ==> PairFits(c, ps[i]) then Parsed(Collect(c, form, ps)) else TooLarge
    decreases |ps|
  {
    if ps != [] {
      SplitEncoded(ps, conv);
      EncodedPairReads(ps[0], conv);
      ParseInvertsEncode(c, Add(c, form, ps[0]), ps[1..], conv);
      var rest := ps[1..];
      if forall i :: 0 <= i < |ps| ==> PairFits(c, ps[i]) {
        assert forall i :: 0 <= i < |rest| ==> PairFits(c, rest[i]);
      } else if PairFits(c, ps[0]) {
        var i :| 0 <= i < |ps| && !PairFits(c, ps[i]);
        assert !PairFits(c, rest[i - 1]);
      }
    }
  }

  /**
   The form round trip: encoding a list of pairs within the size limit and parsing it gives each
   normalised name exactly its values, in order.
   */
  lemma {:induction false} FormRoundTrip(c: Config, ps: seq<Pair>, conv: Conversion, key: ByteString)
    requires forall i :: 0 <= i < |ps| ==> PairFits(c, ps[i])
    ensures ParseOnto(c, map[], EncodeForm(ps), conv).Parsed?
    ensures var form := ParseOnto(c, map[], EncodeForm(ps), conv).form;
            && ValuesIn(form, key) == ValuesFor(c, ps, key)
            && (key in form <==> ValuesFor(c, ps, key) != [])
            && (key in form ==> (form[key].isArray <==> |ValuesFor(c, ps, key)| >= 2 || StartsAsArray(c, ps, key)))
            && NamesMatch(form)
  {
    ParseInvertsEncode(c, map[], ps, conv);
    if key in Collect(c, map[], ps) { CollectedArrayFlag(c, map[], ps, key); }
    CollectedValues(c, map[], ps, key);
    CollectedNames(c, map[], ps);
    assert [] + ValuesFor(c, ps, key) == ValuesFor(c, ps, key);
  }
}
