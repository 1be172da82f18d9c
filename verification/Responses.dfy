/**
 make_dict_of_responses: turning the submitted form into answers.  The source iterates over
 a set of keys, so the loop runs here over an arbitrary enumeration of that set, and the
 result is proved equal to Parse, which mentions no order.
 */
module Responses {
  import opened Options
  import opened Collections

  /** The (key, value) pairs of a webob MultiDict, in order. */
  type Form = seq<(string, string)>

  datatype Value = Text(text: string) | TextList(texts: seq<string>) | Decoded(json: string)

  type Answers = map<string, Value>

  /** Deserialisation of a submitted JSON text, None when it is malformed. */
  type Decoder = string -> Option<string>

  ghost function Keys(form: Form): set<string> { set i | 0 <= i < |form| :: form[i].0 }

  /** The part after the first underscore, as str.partition returns it. */
  function AfterUnderscore(key: string): string {
    if key == "" then ""
    else if key[0] == '_' then key[1..]
    else AfterUnderscore(key[1..])
  }

  predicate IsListKey(key: string) { EndsWith(AfterUnderscore(key), "[]") }

  predicate IsDictKey(key: string) { EndsWith(AfterUnderscore(key), "{}") }

  /** The answer name of a key: without the prefix and without a trailing [] or {}. */
  function NameOf(key: string): string {
    var name := AfterUnderscore(key);
    if IsListKey(key) || IsDictKey(key) then name[..|name| - 2] else name
  }

  /** data.getall(key) */
  function GetAll(form: Form, key: string): seq<string> {
    if form == [] then []
    else (if form[0].0 == key then [form[0].1] else []) + GetAll(form[1..], key)
  }

  /** data[key]: the last value given for the key. */
  function GetLast(form: Form, key: string): string {
    var all := GetAll(form, key);
    if all == [] then "" else all[|all| - 1]
  }

  predicate KeyAccepted(form: Form, decode: Decoder, key: string) {
    AfterUnderscore(key) != "" && (IsDictKey(key) ==> decode(GetLast(form, key)).Some?)
  }

  function ValueOf(form: Form, decode: Decoder, key: string): Value
    requires KeyAccepted(form, decode, key)
  {
    if IsListKey(key) then TextList(GetAll(form, key))
    else if IsDictKey(key) then Decoded(decode(GetLast(form, key)).value)
    else Text(GetLast(form, key))
  }

  /** Every key has a name, every {} value decodes, and no two keys share a name. */
  ghost predicate Accepted(form: Form, decode: Decoder) {
    && (forall k :: k in Keys(form) ==> KeyAccepted(form, decode, k))
    && (forall k, l :: k in Keys(form) && l in Keys(form) && k != l ==> NameOf(k) != NameOf(l))
  }

  ghost function KeyOf(form: Form, name: string): (k: string)
    requires exists k :: k in Keys(form) && NameOf(k) == name
    ensures k in Keys(form) && NameOf(k) == name
  {
    var k :| k in Keys(form) && NameOf(k) == name; k
  }

  ghost function AnswersOf(form: Form, decode: Decoder): (r: Answers)
    requires Accepted(form, decode)
    ensures forall k :: k in Keys(form) ==> NameOf(k) in r && r[NameOf(k)] == ValueOf(form, decode, k)
    ensures forall n :: n in r ==> exists k :: k in Keys(form) && NameOf(k) == n
  {
    var names := set k | k in Keys(form) :: NameOf(k);
    var r := map n | n in names :: ValueOf(form, decode, KeyOf(form, n));
    assert forall k :: k in Keys(form) ==> NameOf(k) in names && KeyOf(form, NameOf(k)) == k;
    r
  }

  /** The answers a form stands for; None is the source's ValueError. */
  ghost function Parse(form: Form, decode: Decoder): Option<Answers> {
    if Accepted(form, decode) then Some(AnswersOf(form, decode)) else None
  }

  /** An iteration order of the key set. */
  ghost predicate Enumerates(order: seq<string>, form: Form) {
    Distinct(order) && Elements(order) == Keys(form)
  }

  /** The answers collected from the first keys of an iteration. */
  ghost predicate Collected(form: Form, decode: Decoder, done: seq<string>, answers: Answers) {
    && (forall j :: 0 <= j < |done| ==> KeyAccepted(form, decode, done[j]))
    && (forall j, k :: 0 <= j < k < |done| ==> NameOf(done[j]) != NameOf(done[k]))
    && (forall n :: n in answers ==> exists j :: 0 <= j < |done| && NameOf(done[j]) == n)
    && (forall j :: 0 <= j < |done| ==>
          NameOf(done[j]) in answers && answers[NameOf(done[j])] == ValueOf(form, decode, done[j]))
  }

  method MakeDictOfResponses(form: Form, decode: Decoder, order: seq<string>) returns (r: Option<Answers>)
    requires Enumerates(order, form)
    ensures r == Parse(form, decode)
  {
    hide NameOf, ValueOf, AfterUnderscore, GetAll, GetLast, IsDictKey, IsListKey, Keys, Collected, Parse, Enumerates;
    var answers: Answers := map[];
    CollectedNone(form, decode);
    for i := 0 to |order|
      invariant Collected(form, decode, order[..i], answers)
    {
      var key := order[i];
      if AfterUnderscore(key) == "" {
        Unacceptable(form, decode, order, i);
        return None;
      }
      if IsDictKey(key) && decode(GetLast(form, key)).None? {
        Unacceptable(form, decode, order, i);
        return None;
      }
      if NameOf(key) in answers {
        NameTaken(form, decode, order, i, answers);
        return None;
      }
      CollectedNext(form, decode, order[..i], key, answers);
      answers := answers[NameOf(key) := ValueOf(form, decode, key)];
      assert order[..i + 1] == order[..i] + [key];
    }
    assert order[..|order|] == order;
    CollectedAll(form, decode, order, answers);
    r := Some(answers);
  }

  lemma CollectedNone(form: Form, decode: Decoder)
    ensures Collected(form, decode, [], map[])
  {
  }

  lemma CollectedNext(form: Form, decode: Decoder, done: seq<string>, key: string, answers: Answers)
    requires Collected(form, decode, done, answers) && KeyAccepted(form, decode, key) && NameOf(key) !in answers
    ensures Collected(form, decode, done + [key], answers[NameOf(key) := ValueOf(form, decode, key)])
  {
    hide NameOf, ValueOf, KeyAccepted;
    assert (done + [key])[|done|] == key;
    forall n | n in answers ensures exists j :: 0 <= j < |done + [key]| && NameOf((done + [key])[j]) == n {
      var j :| 0 <= j < |done| && NameOf(done[j]) == n;
      assert (done + [key])[j] == done[j];
    }
  }

  lemma Unacceptable(form: Form, decode: Decoder, order: seq<string>, i: nat)
    requires Enumerates(order, form) && i < |order| && !KeyAccepted(form, decode, order[i])
    ensures Parse(form, decode) == None
  {
    hide KeyAccepted, Keys;
    assert order[i] in order;
  }

  lemma NameTaken(form: Form, decode: Decoder, order: seq<string>, i: nat, answers: Answers)
    requires Enumerates(order, form) && i < |order|
    requires Collected(form, decode, order[..i], answers) && NameOf(order[i]) in answers
    ensures Parse(form, decode) == None
  {
    hide KeyAccepted, NameOf, ValueOf, Keys;
    var j :| 0 <= j < i && NameOf(order[..i][j]) == NameOf(order[i]);
    assert order[j] in order && order[i] in order;
  }

  lemma CollectedAll(form: Form, decode: Decoder, order: seq<string>, answers: Answers)
    requires Enumerates(order, form) && Collected(form, decode, order, answers)
    ensures Parse(form, decode) == Some(answers)
  {
    hide NameOf, ValueOf, KeyAccepted, Keys, AnswersOf;
    forall k | k in Keys(form)
      ensures KeyAccepted(form, decode, k)
      ensures NameOf(k) in answers && answers[NameOf(k)] == ValueOf(form, decode, k)
    {
      assert k in order;
    }
    forall k, l | k in Keys(form) && l in Keys(form) && k != l ensures NameOf(k) != NameOf(l) {
      assert k in order && l in order;
    }
    forall n | n in answers ensures exists k :: k in Keys(form) && NameOf(k) == n {
      var j :| 0 <= j < |order| && NameOf(order[j]) == n;
      assert order[j] in order;
    }
    assert Accepted(form, decode);
    var parsed := AnswersOf(form, decode);
    assert parsed.Keys == answers.Keys;
    forall n | n in answers ensures parsed[n] == answers[n] {
      var k := KeyOf(form, n);
    }
    assert parsed == answers;
  }

  // ---- forms and the answers they carry ----

  /** A field of the page: its name, and what the learner entered. */
  datatype Field = PlainField(name: string, text: string)
    | ListField(name: string, texts: seq<string>)
    | JsonField(name: string, json: string)

  function Suffix(f: Field): string {
    match f case PlainField(_, _) => "" case ListField(_, _) => "[]" case JsonField(_, _) => "{}"
  }

  function FieldKey(f: Field): string { "input" + "_" + (f.name + Suffix(f)) }

  function Texts(f: Field): seq<string> {
    match f case PlainField(_, text) => [text] case ListField(_, texts) => texts case JsonField(_, json) => [json]
  }

  /** The pairs that are sent for a field, one for each text. */
  function Pairs(key: string, texts: seq<string>): Form {
    if texts == [] then [] else [(key, texts[0])] + Pairs(key, texts[1..])
  }

  function FormOf(fs: seq<Field>): Form {
    if fs == [] then [] else Pairs(FieldKey(fs[0]), Texts(fs[0])) + FormOf(fs[1..])
  }

  /** A field that can be sent: a plain name is not empty and does not look like another kind. */
  ghost predicate Sendable(f: Field, decode: Decoder) {
    match f
    case PlainField(name, _) => name != "" && !EndsWith(name, "[]") && !EndsWith(name, "{}")
    case ListField(_, texts) => texts != []
    case JsonField(_, json) => decode(json).Some?
  }

  ghost predicate Carries(v: Value, f: Field, decode: Decoder) {
    match f
    case PlainField(_, text) => v == Text(text)
    case ListField(_, texts) => v == TextList(texts)
    case JsonField(_, json) => v.Decoded? && decode(json) == Some(v.json)
  }

  lemma {:induction false} AfterPrefix(prefix: string, rest: string)
    requires '_' !in prefix
    ensures AfterUnderscore(prefix + "_" + rest) == rest && AfterUnderscore(prefix) == ""
  {
    var key := prefix + "_" + rest;
    if prefix == "" {
      assert key[1..] == rest;
    } else {
      assert key[1..] == prefix[1..] + "_" + rest;
      AfterPrefix(prefix[1..], rest);
    }
  }

  lemma Suffixes(name: string)
    ensures EndsWith(name + "[]", "[]") && !EndsWith(name + "[]", "{}") && (name + "[]")[..|name|] == name
    ensures EndsWith(name + "{}", "{}") && !EndsWith(name + "{}", "[]") && (name + "{}")[..|name|] == name
  {
    assert (name + "[]")[|name|..] == "[]" && (name + "{}")[|name|..] == "{}";
    assert "[]"[0] == '[' && "{}"[0] == '{';
  }

  lemma AfterInput(f: Field)
    ensures AfterUnderscore(FieldKey(f)) == f.name + Suffix(f)
  {
    hide AfterUnderscore, Suffix;
    assert '_' !in "input";
    AfterPrefix("input", f.name + Suffix(f));
  }

  lemma KeyWithSuffix(key: string, name: string)
    ensures AfterUnderscore(key) == name + "[]" ==> NameOf(key) == name && IsListKey(key) && !IsDictKey(key)
    ensures AfterUnderscore(key) == name + "{}" ==> NameOf(key) == name && !IsListKey(key) && IsDictKey(key)
  {
    Suffixes(name);
    hide AfterUnderscore, EndsWith;
  }

  lemma KeyOfField(f: Field, decode: Decoder)
    requires Sendable(f, decode)
    ensures NameOf(FieldKey(f)) == f.name && AfterUnderscore(FieldKey(f)) != ""
    ensures IsListKey(FieldKey(f)) == f.ListField? && IsDictKey(FieldKey(f)) == f.JsonField?
  {
    AfterInput(f);
    if f.PlainField? {
      assert f.name + "" == f.name;
      hide AfterUnderscore, EndsWith, FieldKey;
    } else {
      hide AfterUnderscore, EndsWith, FieldKey, NameOf, IsListKey, IsDictKey;
      KeyWithSuffix(FieldKey(f), f.name);
    }
  }

  lemma {:induction false} GetAllJoins(a: Form, b: Form, key: string)
    ensures GetAll(a + b, key) == GetAll(a, key) + GetAll(b, key)
  {
    if a == [] {
      assert a + b == b;
    } else {
      assert (a + b)[1..] == a[1..] + b;
      GetAllJoins(a[1..], b, key);
    }
  }

  lemma GetAllCons(key: string, text: string, rest: Form, other: string)
    ensures GetAll([(key, text)] + rest, other) == (if key == other then [text] else []) + GetAll(rest, other)
  {
    assert ([(key, text)] + rest)[1..] == rest;
  }

  lemma {:induction false} GetAllPairs(key: string, texts: seq<string>, other: string)
    ensures GetAll(Pairs(key, texts), other) == if key == other then texts else []
  {
    if texts != [] {
      hide GetAll;
      GetAllPairs(key, texts[1..], other);
      GetAllCons(key, texts[0], Pairs(key, texts[1..]), other);
    }
  }

  lemma {:induction false} KeysOfPairs(key: string, texts: seq<string>)
    ensures forall k :: k in Keys(Pairs(key, texts)) <==> k == key && texts != []
  {
    if texts != [] {
      var pairs := Pairs(key, texts);
      assert pairs[1..] == Pairs(key, texts[1..]) && pairs[0].0 == key;
      hide Keys, Pairs;
      KeysOfPairs(key, texts[1..]);
      KeysCons(pairs);
    }
  }

  lemma KeysCons(form: Form)
    requires form != []
    ensures Keys(form) == {form[0].0} + Keys(form[1..])
  {
    assert forall i :: 1 <= i < |form| ==> form[i] == form[1..][i - 1];
    forall k | k in Keys(form) ensures k in {form[0].0} + Keys(form[1..]) {
      var i :| 0 <= i < |form| && form[i].0 == k;
      assert i > 0 ==> form[1..][i - 1].0 == k;
    }
    forall k | k in Keys(form[1..]) ensures k in Keys(form) {
      var i :| 0 <= i < |form[1..]| && form[1..][i].0 == k;
      assert form[i + 1].0 == k;
    }
  }

  lemma {:induction false} KeysJoin(a: Form, b: Form)
    ensures Keys(a + b) == Keys(a) + Keys(b)
  {
    if a == [] {
      assert a + b == b;
    } else {
      assert (a + b)[1..] == a[1..] + b;
      KeysCons(a);
      KeysCons(a + b);
      KeysJoin(a[1..], b);
    }
  }

  /** No two fields are sent under the same key. */
  ghost predicate DistinctKeys(fs: seq<Field>) {
    forall i, j :: 0 <= i < j < |fs| ==> FieldKey(fs[i]) != FieldKey(fs[j])
  }

  lemma {:induction false} KeysOfForm(fs: seq<Field>)
    requires forall i :: 0 <= i < |fs| ==> Texts(fs[i]) != []
    ensures forall k :: k in Keys(FormOf(fs)) <==> exists i :: 0 <= i < |fs| && FieldKey(fs[i]) == k
  {
    if fs != [] {
      var f, rest := fs[0], fs[1..];
      hide FieldKey, Texts, Keys;
      KeysOfForm(rest);
      KeysOfPairs(FieldKey(f), Texts(f));
      KeysJoin(Pairs(FieldKey(f), Texts(f)), FormOf(rest));
      forall k ensures k in Keys(FormOf(fs)) <==> exists i :: 0 <= i < |fs| && FieldKey(fs[i]) == k {
        if exists i :: 0 <= i < |rest| && FieldKey(rest[i]) == k {
          var i :| 0 <= i < |rest| && FieldKey(rest[i]) == k;
          assert FieldKey(fs[i + 1]) == k;
        }
        if exists i :: 0 <= i < |fs| && FieldKey(fs[i]) == k {
          var i :| 0 <= i < |fs| && FieldKey(fs[i]) == k;
          assert i > 0 ==> FieldKey(rest[i - 1]) == k;
        }
      }
    } else {
      assert FormOf(fs) == [];
    }
  }

  lemma FirstTexts(fs: seq<Field>, key: string)
    requires fs != []
    ensures GetAll(FormOf(fs), key)
         == (if FieldKey(fs[0]) == key then Texts(fs[0]) else []) + GetAll(FormOf(fs[1..]), key)
  {
    hide FieldKey, Texts, GetAll, Pairs;
    GetAllPairs(FieldKey(fs[0]), Texts(fs[0]), key);
    GetAllJoins(Pairs(FieldKey(fs[0]), Texts(fs[0])), FormOf(fs[1..]), key);
  }

  lemma {:induction false} NoTexts(fs: seq<Field>, key: string)
    requires forall i :: 0 <= i < |fs| ==> FieldKey(fs[i]) != key
    ensures GetAll(FormOf(fs), key) == []
  {
    hide FieldKey, Texts;
    if fs != [] {
      FirstTexts(fs, key);
      assert forall i :: 0 <= i < |fs[1..]| ==> fs[1..][i] == fs[i + 1];
      NoTexts(fs[1..], key);
    }
  }

  lemma {:induction false} TextsOfForm(fs: seq<Field>, i: nat)
    requires DistinctKeys(fs) && i < |fs|
    ensures GetAll(FormOf(fs), FieldKey(fs[i])) == Texts(fs[i])
  {
    hide FieldKey, Texts, GetAll, FormOf;
    FirstTexts(fs, FieldKey(fs[i]));
    assert forall j :: 0 <= j < |fs[1..]| ==> fs[1..][j] == fs[j + 1];
    if i == 0 {
      NoTexts(fs[1..], FieldKey(fs[0]));
    } else {
      TextsOfForm(fs[1..], i - 1);
    }
  }

  /** What a field's key stands for in the whole form. */
  lemma FieldIsRead(fs: seq<Field>, decode: Decoder, i: nat)
    requires i < |fs| && DistinctKeys(fs) && Sendable(fs[i], decode)
    ensures var form, key := FormOf(fs), FieldKey(fs[i]);
            && KeyAccepted(form, decode, key) && NameOf(key) == fs[i].name
            && Carries(ValueOf(form, decode, key), fs[i], decode)
  {
    hide FieldKey, NameOf, AfterUnderscore, IsListKey, IsDictKey, GetAll, FormOf, DistinctKeys;
    KeyOfField(fs[i], decode);
    TextsOfForm(fs, i);
  }

  /** Every key of the form belongs to a field, which it reads back. */
  ghost predicate ReadBack(fs: seq<Field>, form: Form, decode: Decoder) {
    && (forall i :: 0 <= i < |fs| ==>
          && FieldKey(fs[i]) in Keys(form) && KeyAccepted(form, decode, FieldKey(fs[i]))
          && NameOf(FieldKey(fs[i])) == fs[i].name
          && Carries(ValueOf(form, decode, FieldKey(fs[i])), fs[i], decode))
    && (forall k :: k in Keys(form) ==> exists i :: 0 <= i < |fs| && FieldKey(fs[i]) == k)
  }

  lemma FormIsReadBack(fs: seq<Field>, decode: Decoder)
    requires DistinctKeys(fs) && forall i :: 0 <= i < |fs| ==> Sendable(fs[i], decode)
    ensures ReadBack(fs, FormOf(fs), decode)
  {
    hide FieldKey, NameOf, KeyAccepted, ValueOf, Carries, Keys, FormOf, DistinctKeys;
    forall i | 0 <= i < |fs| ensures Texts(fs[i]) != [] {
    }
    hide Sendable, Texts;
    KeysOfForm(fs);
    forall i | 0 <= i < |fs|
      ensures FieldKey(fs[i]) in Keys(FormOf(fs)) && KeyAccepted(FormOf(fs), decode, FieldKey(fs[i]))
      ensures NameOf(FieldKey(fs[i])) == fs[i].name
      ensures Carries(ValueOf(FormOf(fs), decode, FieldKey(fs[i])), fs[i], decode)
    {
      FieldIsRead(fs, decode, i);
    }
  }

  lemma NamesDecide(fs: seq<Field>, form: Form, decode: Decoder)
    requires DistinctKeys(fs) && ReadBack(fs, form, decode)
    ensures Accepted(form, decode) <==> forall i, j :: 0 <= i < j < |fs| ==> fs[i].name != fs[j].name
  {
    hide FieldKey, NameOf, KeyAccepted, ValueOf, Carries, Keys;
    if forall i, j :: 0 <= i < j < |fs| ==> fs[i].name != fs[j].name {
      forall k, l | k in Keys(form) && l in Keys(form) && k != l ensures NameOf(k) != NameOf(l) {
        var i :| 0 <= i < |fs| && FieldKey(fs[i]) == k;
        var j :| 0 <= j < |fs| && FieldKey(fs[j]) == l;
      }
    }
  }

  /**
   Answers sent under different keys are read back as they were entered, under their names,
   exactly when the names differ.
   */
  lemma FormRoundTrip(fs: seq<Field>, decode: Decoder)
    requires DistinctKeys(fs) && forall i :: 0 <= i < |fs| ==> Sendable(fs[i], decode)
    ensures Parse(FormOf(fs), decode).Some? <==> forall i, j :: 0 <= i < j < |fs| ==> fs[i].name != fs[j].name
    ensures Parse(FormOf(fs), decode).Some? ==>
              var answers := Parse(FormOf(fs), decode).value;
              && (forall i :: 0 <= i < |fs| ==>
                    fs[i].name in answers && Carries(answers[fs[i].name], fs[i], decode))
              && (forall n :: n in answers ==> exists i :: 0 <= i < |fs| && fs[i].name == n)
  {
    FormIsReadBack(fs, decode);
    hide FieldKey, NameOf, KeyAccepted, ValueOf, Carries, Keys, FormOf, AnswersOf, Sendable, Accepted, DistinctKeys;
    NamesDecide(fs, FormOf(fs), decode);
    if Accepted(FormOf(fs), decode) {
      AnswersReadBack(fs, FormOf(fs), decode);
    }
  }

  lemma AnswersReadBack(fs: seq<Field>, form: Form, decode: Decoder)
    requires ReadBack(fs, form, decode) && Accepted(form, decode)
    ensures forall i :: 0 <= i < |fs| ==>
              fs[i].name in AnswersOf(form, decode) && Carries(AnswersOf(form, decode)[fs[i].name], fs[i], decode)
    ensures forall n :: n in AnswersOf(form, decode) ==> exists i :: 0 <= i < |fs| && fs[i].name == n
  {
    hide FieldKey, NameOf, KeyAccepted, ValueOf, Carries, Keys, AnswersOf;
    forall n | n in AnswersOf(form, decode) ensures exists i :: 0 <= i < |fs| && fs[i].name == n {
      var k :| k in Keys(form) && NameOf(k) == n;
      var i :| 0 <= i < |fs| && FieldKey(fs[i]) == k;
    }
  }

  /** A key without a part after its first underscore makes the whole form malformed. */
  lemma NamelessKey(form: Form, decode: Decoder, i: nat, prefix: string)
    requires i < |form| && '_' !in prefix && (form[i].0 == prefix || form[i].0 == prefix + "_" + "")
    ensures Parse(form, decode) == None
  {
    AfterPrefix(prefix, "");
    assert form[i].0 in Keys(form);
    assert !KeyAccepted(form, decode, form[i].0);
  }

  /** So does a {} value that does not decode; of several values the last one counts. */
  lemma UndecodableValue(form: Form, decode: Decoder, name: string, json: string)
    requires decode(json) == None
    ensures Parse(form + [("input" + "_" + (name + "{}"), json)], decode) == None
  {
    var key := "input" + "_" + (name + "{}");
    var all := form + [(key, json)];
    Suffixes(name);
    assert '_' !in "input";
    AfterPrefix("input", name + "{}");
    GetAllJoins(form, [(key, json)], key);
    assert GetAll([(key, json)], key) == [json] by {
      assert [(key, json)][1..] == [];
    }
    assert all[|form|].0 == key && key in Keys(all);
    assert !KeyAccepted(all, decode, key);
  }
}
