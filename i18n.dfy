/** English-only translation lookup and `{param}` substitution (src/i18n/index.ts). The
    locale tables themselves are not part of this model: a table is an abstract map from
    translation key to string. */
module I18n {
  import opened Wrappers
  import opened JsString

  type Table = map<string, string>

  /** The entries of a `Record<string, string | number>` in `Object.keys` order, each
      value already converted with `String(value)`. */
  type Params = seq<(string, string)>

  /** The text `{name}` that a parameter called `name` replaces. */
  function Placeholder(name: string): (r: string)
    ensures |r| == |name| + 2 && r[0] == '{' && r[1..] == name + "}"
  {
    "{" + name + "}"
  }

  /** What the `forEach` over the parameters leaves in `str`: each parameter in turn
      replaces every occurrence of its placeholder. */
  function Substitute(s: string, params: Params): string
    decreases |params|
  {
    if |params| == 0 then s
    else Substitute(ReplaceAll(s, Placeholder(params[0].0), params[0].1), params[1..])
  }

  /** `if (params) { ... }`: absent parameters leave the string as it is. */
  function Interpolate(s: string, params: Option<Params>): string {
    match params
    case None => s
    case Some(ps) => Substitute(s, ps)
  }

  /** The `forEach` loop shared by `getEnglishTranslation` and `t`. */
  method ApplyParams(s: string, params: Option<Params>) returns (str: string)
    ensures str == Interpolate(s, params)
  {
    str := s;
    if params.Some? {
      var ps := params.value;
      var i := 0;
      while i < |ps|
        invariant 0 <= i <= |ps|
        invariant Substitute(str, ps[i..]) == Substitute(s, ps)
      {
        assert ps[i..][1..] == ps[i + 1..];
        str := ReplaceAll(str, Placeholder(ps[i].0), ps[i].1);
        i := i + 1;
      }
      assert ps[|ps|..] == [];
    }
  }

  /** `enTranslations[key] || String(key)`: a missing key and an empty string both fall
      back to the key itself. */
  function EnglishLookup(english: Table, key: string): (r: string)
    ensures r == key <==> key !in english || english[key] == "" || english[key] == key
    ensures r != key ==> key in english && r == english[key]
  {
    if key in english && english[key] != "" then english[key] else key
  }

  /** `getEnglishTranslation(key, params)`, as a value. Only the English table is an
      argument: the active locale cannot influence the result. */
  function EnglishTranslation(english: Table, key: string, params: Option<Params>): string {
    Interpolate(EnglishLookup(english, key), params)
  }

  /** `getEnglishTranslation`, step by step. */
  method GetEnglishTranslation(english: Table, key: string, params: Option<Params>) returns (str: string)
    ensures str == EnglishTranslation(english, key, params)
  {
    str := EnglishLookup(english, key);
    str := ApplyParams(str, params);
  }

  /** Without parameters, or with an empty record, the looked-up string is returned
      unchanged. */
  lemma InterpolateNoParams(s: string)
    ensures Interpolate(s, None) == s
    ensures Interpolate(s, Some([])) == s
  {
  }

  /** A string with no `{` is returned unchanged whatever the parameters. */
  lemma {:induction false} SubstituteWithoutPlaceholders(s: string, params: Params)
    requires '{' !in s
    ensures Substitute(s, params) == s
    decreases |params|
  {
    if |params| > 0 {
      var pat := Placeholder(params[0].0);
      assert !Includes(s, pat) by {
        forall i | 0 <= i <= |s| - |pat| ensures !OccursAt(s, pat, i) {
          assert s[i] != '{';
          assert s[i..i + |pat|][0] == s[i];
        }
      }
      ReplaceAllAbsent(s, pat, params[0].1);
      SubstituteWithoutPlaceholders(s, params[1..]);
    }
  }

  /** A parameter whose name contains no `{` replaces every occurrence of its
      placeholder: a template made of placeholder-free chunks separated by `{name}`
      becomes those chunks separated by the value. */
  lemma SubstituteOne(chunks: seq<string>, name: string, value: string)
    requires '{' !in name
    requires forall i :: 0 <= i < |chunks| ==> !Includes(chunks[i], Placeholder(name))
    ensures Substitute(Join(chunks, Placeholder(name)), [(name, value)]) == Join(chunks, value)
  {
    var pat := Placeholder(name);
    assert pat[0] !in pat[1..] by {
      assert pat[1..] == name + "}";
    }
    ReplaceAllJoin(chunks, pat, value);
    assert [(name, value)][1..] == [];
  }
}
