/** lib/api.ts, `getConfig`: a loaded site configuration is completed from the defaults, one
    level deep for `seo`, `profile` and `sso` and two levels for `profile.socials`; a loaded
    value wins wherever it is present. The defaults are a JSON object; the stored value may be
    any JSON value, and a nested value that is not an object is spread as JavaScript does. */
module Config {
  import opened Wrappers

  /** A parsed JSON value. Numbers are kept as integers; no rule below looks at them. */
  datatype Json = Null | Bool(b: bool) | Num(n: int) | Str(s: string) | Arr(items: seq<Json>) | Obj(fields: map<string, Json>)

  function Get(m: map<string, Json>, k: string): Option<Json> {
    if k in m then Some(m[k]) else None
  }

  /** JavaScript truthiness; an absent property is `undefined`. */
  predicate Truthy(v: Option<Json>) {
    match v
    case None => false
    case Some(Null) => false
    case Some(Bool(b)) => b
    case Some(Num(n)) => n != 0
    case Some(Str(s)) => s != ""
    case Some(_) => true
  }

  /** The decimal numeral JavaScript uses as the property key of array index `n`. */
  function IndexKey(n: nat): (k: string)
    ensures |k| > 0
    decreases n
  {
    if n < 10 then [Digit(n)] else IndexKey(n / 10) + [Digit(n % 10)]
  }

  function Digit(d: nat): char
    requires d < 10
  {
    (d + '0' as int) as char
  }

  /** Reads a string of decimal digits back; any other string reads as some number whose
      numeral is not that string. */
  function ParseIndex(k: string): int
    decreases |k|
  {
    if |k| == 0 then 0 else ParseIndex(k[..|k| - 1]) * 10 + (k[|k| - 1] as int - '0' as int)
  }

  /** Every index key reads back as its index, so distinct indices have distinct keys. */
  lemma {:induction false} ParseIndexKey(n: nat)
    ensures ParseIndex(IndexKey(n)) == n
    decreases n
  {
    if n >= 10 {
      var k := IndexKey(n);
      ParseIndexKey(n / 10);
      assert k[..|k| - 1] == IndexKey(n / 10);
    }
  }

  /** The properties an array (or a string, one unit per element) lends to a spread: its
      elements under their index keys. */
  function IndexFields(items: seq<Json>): map<string, Json>
    decreases |items|
  {
    if |items| == 0 then map[]
    else IndexFields(items[..|items| - 1])[IndexKey(|items| - 1) := items[|items| - 1]]
  }

  /** The keys of the spread are exactly the numerals of the indices, each holding its element. */
  lemma {:induction false} IndexFieldsGet(items: seq<Json>, k: string)
    ensures Get(IndexFields(items), k) ==
      if 0 <= ParseIndex(k) < |items| && k == IndexKey(ParseIndex(k)) then Some(items[ParseIndex(k)]) else None
    decreases |items|
  {
    if |items| > 0 {
      var n := |items| - 1;
      IndexFieldsGet(items[..n], k);
      ParseIndexKey(n);
    }
  }

  /** A string's own enumerable properties: one single-unit string per index. */
  function Units(s: string): (r: seq<Json>)
    ensures |r| == |s|
    ensures forall i :: 0 <= i < |s| ==> r[i] == Str([s[i]])
  {
    seq(|s|, i requires 0 <= i < |s| => Str([s[i]]))
  }

  /** The properties `{ ...(v || {}) }` copies. An object lends its fields, an array its
      elements and a string its units under their index keys; `null`, `undefined`, `false`,
      numbers and `true` lend nothing (the empty string and `0` are replaced by `{}`). */
  function Fields(v: Option<Json>): map<string, Json> {
    match v
    case Some(Obj(fields)) => fields
    case Some(Arr(items)) => IndexFields(items)
    case Some(Str(s)) => IndexFields(Units(s))
    case _ => map[]
  }

  /** What a spread of each kind of JSON value contributes, key by key. */
  lemma FieldsGet(v: Option<Json>, k: string)
    ensures v.Some? && v.value.Obj? ==> Get(Fields(v), k) == Get(v.value.fields, k)
    ensures v.Some? && v.value.Arr? ==> (Get(Fields(v), k) ==
      if 0 <= ParseIndex(k) < |v.value.items| && k == IndexKey(ParseIndex(k)) then Some(v.value.items[ParseIndex(k)]) else None)
    ensures v.Some? && v.value.Str? ==> (Get(Fields(v), k) ==
      if 0 <= ParseIndex(k) < |v.value.s| && k == IndexKey(ParseIndex(k)) then Some(Str([v.value.s[ParseIndex(k)]])) else None)
    ensures v.None? || v.value.Null? || v.value.Bool? || v.value.Num? ==> Fields(v) == map[]
  {
    if v.Some? && v.value.Arr? {
      IndexFieldsGet(v.value.items, k);
    } else if v.Some? && v.value.Str? {
      IndexFieldsGet(Units(v.value.s), k);
    }
  }

  /** `a || b`. */
  function Or(a: Option<Json>, b: Option<Json>): Option<Json> {
    if Truthy(a) then a else b
  }

  /** Sets `k` when `v` is present, drops it otherwise. */
  function SetOpt(m: map<string, Json>, k: string, v: Option<Json>): map<string, Json> {
    if v.Some? then m[k := v.value] else m - {k}
  }

  /** `{ ...d, ...(l || {}) }` for two nested objects. */
  function Spread(d: Option<Json>, l: Option<Json>): map<string, Json> {
    Fields(d) + Fields(l)
  }

  /** `profile`, whose `socials` are completed one level further down. */
  function MergeProfile(d: Option<Json>, l: Option<Json>): map<string, Json> {
    Spread(d, l)["socials" := Obj(Spread(Get(Fields(d), "socials"), Get(Fields(l), "socials")))]
  }

  /** The object `getConfig` builds from the defaults `d` and the loaded object `l`. */
  function MergeConfig(d: map<string, Json>, l: map<string, Json>): map<string, Json> {
    SetOpt(SetOpt(MergeNested(d, l), "friendLinks", Or(Get(l, "friendLinks"), Get(d, "friendLinks"))),
      "friendsMessage", Or(Get(l, "friendsMessage"), Get(d, "friendsMessage")))
  }

  /** `getConfig` on the stored value: nothing stored means the defaults are completed by
      themselves; a stored `null` makes `loadedConfig.seo` throw, and the catch returns the
      defaults; any other value is spread at the top level like a nested one. No default
      property goes missing, and the only other properties are the stored value's own and
      the completed nested objects. */
  function GetConfig(d: map<string, Json>, saved: Option<Json>): (r: map<string, Json>)
    ensures forall k :: k in d ==> k in r
    ensures saved == Some(Null) ==> r == d
    ensures saved.Some? ==> forall k :: k in r ==> k in d || k in Fields(saved) || Special(k)
  {
    match saved
    case None => MergeConfigDomain(d, d); MergeConfig(d, d)
    case Some(Null) => d
    case Some(_) => MergeConfigDomain(d, Fields(saved)); MergeConfig(d, Fields(saved))
  }

  /** The spread of both objects with the three nested objects completed. */
  function MergeNested(d: map<string, Json>, l: map<string, Json>): map<string, Json> {
    (d + l)
      ["seo" := Obj(Spread(Get(d, "seo"), Get(l, "seo")))]
      ["profile" := Obj(MergeProfile(Get(d, "profile"), Get(l, "profile")))]
      ["sso" := Obj(Spread(Get(d, "sso"), Get(l, "sso")))]
  }

  predicate Special(k: string) {
    k == "seo" || k == "profile" || k == "sso" || k == "friendLinks" || k == "friendsMessage"
  }

  /** Every property of the completed object, one by one. */
  lemma MergeConfigGet(d: map<string, Json>, l: map<string, Json>, k: string)
    ensures Get(MergeConfig(d, l), k) ==
      if k == "friendLinks" || k == "friendsMessage" then Or(Get(l, k), Get(d, k))
      else if k == "seo" || k == "sso" then Some(Obj(Spread(Get(d, k), Get(l, k))))
      else if k == "profile" then Some(Obj(MergeProfile(Get(d, k), Get(l, k))))
      else if k in l then Get(l, k) else Get(d, k)
  {
    var n := MergeNested(d, l);
    assert Get(n, k) ==
      if k == "seo" || k == "sso" then Some(Obj(Spread(Get(d, k), Get(l, k))))
      else if k == "profile" then Some(Obj(MergeProfile(Get(d, k), Get(l, k))))
      else if k in l then Get(l, k) else Get(d, k);
    SetOptGet(n, "friendLinks", Or(Get(l, "friendLinks"), Get(d, "friendLinks")), k);
    SetOptGet(SetOpt(n, "friendLinks", Or(Get(l, "friendLinks"), Get(d, "friendLinks"))),
      "friendsMessage", Or(Get(l, "friendsMessage"), Get(d, "friendsMessage")), k);
  }

  /** The completed object keeps every default property and adds only loaded ones and the
      nested objects. */
  lemma MergeConfigDomain(d: map<string, Json>, l: map<string, Json>)
    ensures forall k :: k in d ==> k in MergeConfig(d, l)
    ensures forall k :: k in MergeConfig(d, l) ==> k in d || k in l || Special(k)
  {
    forall k
      ensures (k in d ==> k in MergeConfig(d, l)) && (k in MergeConfig(d, l) ==> k in d || k in l || Special(k))
    {
      MergeConfigGet(d, l, k);
    }
  }

  lemma SetOptGet(m: map<string, Json>, key: string, v: Option<Json>, k: string)
    ensures Get(SetOpt(m, key, v), k) == if k == key then v else Get(m, k)
  {
  }

  /** Outside the nested objects a loaded value wins and a missing one is taken from the
      defaults; `friendLinks` and `friendsMessage` fall back to the default also when the
      loaded value is falsy; no default property goes missing. */
  lemma MergeConfigTop(d: map<string, Json>, l: map<string, Json>, k: string)
    ensures !Special(k) ==> Get(MergeConfig(d, l), k) == (if k in l then Get(l, k) else Get(d, k))
    ensures k == "friendLinks" || k == "friendsMessage" ==> Get(MergeConfig(d, l), k) == Or(Get(l, k), Get(d, k))
    ensures k in d ==> k in MergeConfig(d, l)
  {
    MergeConfigGet(d, l, k);
  }

  /** Inside `seo`, `sso`, `profile` and `profile.socials` the same rule holds per property. */
  lemma SpreadGet(d: Option<Json>, l: Option<Json>, k: string)
    ensures Get(Spread(d, l), k) == if k in Fields(l) then Get(Fields(l), k) else Get(Fields(d), k)
  {
  }

  lemma MergeConfigNested(d: map<string, Json>, l: map<string, Json>, nested: string, k: string)
    requires nested == "seo" || nested == "sso" || nested == "profile"
    ensures var m := Fields(Get(MergeConfig(d, l), nested));
      k != "socials" ==> Get(m, k) == (if k in Fields(Get(l, nested)) then Get(Fields(Get(l, nested)), k) else Get(Fields(Get(d, nested)), k))
  {
    MergeConfigGet(d, l, nested);
    SpreadGet(Get(d, nested), Get(l, nested), k);
  }

  lemma MergeConfigSocials(d: map<string, Json>, l: map<string, Json>, k: string)
    ensures var socials := Fields(Get(Fields(Get(MergeConfig(d, l), "profile")), "socials"));
      var ls, ds := Fields(Get(Fields(Get(l, "profile")), "socials")), Fields(Get(Fields(Get(d, "profile")), "socials"));
      Get(socials, k) == (if k in ls then Get(ls, k) else Get(ds, k))
  {
    MergeConfigGet(d, l, "profile");
    var ps := Spread(Get(Fields(Get(d, "profile")), "socials"), Get(Fields(Get(l, "profile")), "socials"));
    assert Get(Fields(Get(MergeConfig(d, l), "profile")), "socials") == Some(Obj(ps));
    SpreadGet(Get(Fields(Get(d, "profile")), "socials"), Get(Fields(Get(l, "profile")), "socials"), k);
  }

  /** A loaded `seo` that is the string "ab" keeps the default title and gains the keys
      "0" and "1". */
  lemma StringSeoSpreadsUnits()
    ensures var d := map["seo" := Obj(map["title" := Str("Blog")])];
      Fields(Get(MergeConfig(d, map["seo" := Str("ab")]), "seo")) ==
        map["title" := Str("Blog"), "0" := Str("a"), "1" := Str("b")]
  {
    MergeConfigGet(map["seo" := Obj(map["title" := Str("Blog")])], map["seo" := Str("ab")], "seo");
    AbFields();
  }

  lemma AbFields()
    ensures Fields(Some(Str("ab"))) == map["0" := Str("a"), "1" := Str("b")]
  {
    var u := Units("ab");
    assert u == [Str("a"), Str("b")] && u[..1] == [Str("a")] && u[..1][..0] == [];
    assert IndexKey(0) == "0" && IndexKey(1) == "1";
    assert IndexFields(u[..1][..0]) == map[];
    assert IndexFields(u[..1]) == map["0" := Str("a")];
    assert IndexFields(u) == map["0" := Str("a")]["1" := Str("b")];
  }

  lemma SpreadTwice(d: Option<Json>, l: Option<Json>)
    ensures Spread(d, Some(Obj(Spread(d, l)))) == Spread(d, l)
  {
  }

  lemma MergeProfileTwice(d: Option<Json>, l: Option<Json>)
    ensures MergeProfile(d, Some(Obj(MergeProfile(d, l)))) == MergeProfile(d, l)
  {
    var p := MergeProfile(d, l);
    var s := Spread(Get(Fields(d), "socials"), Get(Fields(l), "socials"));
    assert Get(Fields(Some(Obj(p))), "socials") == Some(Obj(s));
    SpreadTwice(Get(Fields(d), "socials"), Get(Fields(l), "socials"));
    assert Spread(d, Some(Obj(p))) == p;
  }

  lemma MergeConfigGetTwice(d: map<string, Json>, l: map<string, Json>, k: string)
    ensures Get(MergeConfig(d, MergeConfig(d, l)), k) == Get(MergeConfig(d, l), k)
  {
    var m := MergeConfig(d, l);
    MergeConfigGet(d, l, k);
    MergeConfigGet(d, m, k);
    if k == "seo" || k == "sso" {
      SpreadTwice(Get(d, k), Get(l, k));
    } else if k == "profile" {
      MergeProfileTwice(Get(d, k), Get(l, k));
    } else if k == "friendLinks" || k == "friendsMessage" {
    } else {
      MergeConfigGet(d, l, k);
    }
  }

  /** `getConfig` completes the object twice (once in the local fallback, once after the
      fetch); the second pass changes nothing. */
  lemma MergeConfigIdempotent(d: map<string, Json>, l: map<string, Json>)
    ensures MergeConfig(d, MergeConfig(d, l)) == MergeConfig(d, l)
  {
    var m := MergeConfig(d, l);
    var mm := MergeConfig(d, m);
    forall k
      ensures Get(mm, k) == Get(m, k)
    {
      MergeConfigGetTwice(d, l, k);
    }
    SameGet(mm, m);
  }

  lemma SameGet(a: map<string, Json>, b: map<string, Json>)
    requires forall k :: Get(a, k) == Get(b, k)
    ensures a == b
  {
    assert forall k :: k in a <==> Get(a, k).Some?;
    assert forall k :: k in b <==> Get(b, k).Some?;
  }
}
