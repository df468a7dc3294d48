/** The validators as they run over a record: loops that stop at the first defect. */
module BenchValidation {
  import opened Wrappers
  import opened BenchRecords

  /** A full match of lower-case hexadecimal digits between two lengths. */
  method MatchesHex(s: string, low: nat, high: nat) returns (ok: bool)
    ensures ok <==> low <= |s| <= high && IsHex(s)
  {
    if |s| < low || |s| > high {
      return false;
    }
    for i := 0 to |s|
      invariant forall c | c in s[..i] :: '0' <= c <= '9' || 'a' <= c <= 'f'
    {
      var n := s[i] as int;
      if !(48 <= n <= 57) && !(97 <= n <= 102) {
        assert s[i] in s;
        return false;
      }
      assert s[..i + 1] == s[..i] + [s[i]];
    }
    assert s[..|s|] == s;
    return true;
  }

  method HasFields(fields: map<string, string>, keys: seq<string>) returns (ok: bool)
    ensures ok <==> forall k | k in keys :: Filled(fields, k)
  {
    for i := 0 to |keys|
      invariant forall k | k in keys[..i] :: Filled(fields, k)
    {
      assert keys[i] in keys && keys[..i + 1] == keys[..i] + [keys[i]];
      if keys[i] !in fields || fields[keys[i]] == "" {
        return false;
      }
    }
    assert keys[..|keys|] == keys;
    return true;
  }

  method ValidateReference(r: Reference) returns (ok: bool)
    ensures ok <==> ValidReference(r)
  {
    var commit := MatchesHex(r.commit, 8, 40);
    var complete := HasFields(r.env, ["runner", "os", "architecture", "php", "php_mode"]);
    return !(r.median < 0.0) && commit && !(r.runId <= 0) && complete;
  }

  method AnyNegative(samples: seq<real>) returns (any: bool)
    ensures any <==> exists s :: s in samples && s < 0.0
  {
    for i := 0 to |samples|
      invariant forall s | s in samples[..i] :: s >= 0.0
    {
      assert samples[i] in samples && samples[..i + 1] == samples[..i] + [samples[i]];
      if samples[i] < 0.0 {
        return true;
      }
    }
    assert samples[..|samples|] == samples;
    return false;
  }

  method ValidateVariant(tag: string, v: Variant) returns (ok: bool)
    ensures ok <==> ValidVariant(tag, v)
  {
    var php := |tag| >= 3 && tag[..3] == "php";
    assert php <==> IsPhp(tag);
    if v.median.None? {
      if !(php || tag == "c") || !v.skipped {
        return false;
      }
    } else if v.median.value < 0.0 || v.skipped {
      return false;
    }
    var negative := AnyNegative(v.samples);
    if negative || (v.median.None? && v.samples != []) {
      return false;
    }
    if v.reference.Some? {
      if !php || v.median.Some? {
        return false;
      }
      ok := ValidateReference(v.reference.value);
      return ok;
    }
    return true;
  }

  method ValidateVariants(variants: map<string, Variant>) returns (ok: bool)
    ensures ok <==> forall tag | tag in variants :: ValidVariant(tag, variants[tag])
  {
    var rest := variants.Keys;
    while rest != {}
      invariant rest <= variants.Keys
      invariant forall tag | tag in variants && tag !in rest :: ValidVariant(tag, variants[tag])
      decreases |rest|
    {
      var tag :| tag in rest;
      var valid := ValidateVariant(tag, variants[tag]);
      if !valid {
        return false;
      }
      rest := rest - {tag};
    }
    return true;
  }

  method HasVariants(suite: Suite, variants: map<string, Variant>) returns (ok: bool)
    ensures ok <==> Mandatory(suite) <= variants.Keys
  {
    match suite
    case Native =>
      return "elephc" in variants && "php" in variants && "c" in variants;
    case Magician =>
      return "elephc-native" in variants && "elephc-eval" in variants && "php-native" in variants
        && "php-eval" in variants;
    case HotPath =>
      return "buffer" in variants && "indexed" in variants && "assoc" in variants;
  }

  /** Every name so far is new, and the names seen are those of the cases so far. */
  ghost predicate NamesSeen(cases: seq<Case>, names: set<string>) {
    && (forall c | c in cases :: c.name in names)
    && (forall name | name in names :: exists c :: c in cases && c.name == name)
    && (forall i, j | 0 <= i < j < |cases| :: cases[i].name != cases[j].name)
  }

  lemma OneMoreName(cases: seq<Case>, names: set<string>, c: Case)
    requires NamesSeen(cases, names) && c.name !in names
    ensures NamesSeen(cases + [c], names + {c.name})
  {
    var all := cases + [c];
    assert c in all && forall d | d in cases :: d in all;
    assert forall i | 0 <= i < |cases| :: cases[i] in cases;
  }

  lemma NameSeenTwice(cases: seq<Case>, i: nat, names: set<string>)
    requires i < |cases| && NamesSeen(cases[..i], names) && cases[i].name in names
    ensures !(forall k, j | 0 <= k < j < |cases| :: cases[k].name != cases[j].name)
  {
    var c :| c in cases[..i] && c.name == cases[i].name;
    var k :| 0 <= k < i && cases[k] == c;
  }

  method ValidateCases(suite: Suite, cases: seq<Case>) returns (ok: bool)
    ensures ok <==> ValidCases(suite, cases)
  {
    if cases == [] {
      return false;
    }
    var names: set<string> := {};
    for i := 0 to |cases|
      invariant NamesSeen(cases[..i], names)
      invariant forall c | c in cases[..i] :: ValidCase(suite, c)
    {
      var c := cases[i];
      assert cases[..i + 1] == cases[..i] + [c] && c in cases;
      if c.name == "" {
        return false;
      }
      if c.name in names {
        NameSeenTwice(cases, i, names);
        return false;
      }
      OneMoreName(cases[..i], names, c);
      names := names + {c.name};
      var complete := HasVariants(suite, c.variants);
      if !complete {
        return false;
      }
      var valid := ValidateVariants(c.variants);
      if !valid {
        return false;
      }
    }
    assert cases[..|cases|] == cases;
    return true;
  }

  /** The samples of a case agree with the declared count, and its fixture has a fingerprint. */
  method ValidateMeasured(env: Environment, c: Case) returns (ok: bool)
    requires env.iterations.Some?
    ensures ok <==> MeasuredAsDeclared(env, c)
  {
    if c.fixture.None? {
      return false;
    }
    var fingerprint := MatchesHex(c.fixture.value, 64, 64);
    if !fingerprint {
      return false;
    }
    var rest := c.variants.Keys;
    while rest != {}
      invariant rest <= c.variants.Keys
      invariant forall tag | tag in c.variants && tag !in rest && !c.variants[tag].skipped ::
        env.iterations.value == |c.variants[tag].samples|
      decreases |rest|
    {
      var tag :| tag in rest;
      if !c.variants[tag].skipped && |c.variants[tag].samples| != env.iterations.value {
        return false;
      }
      rest := rest - {tag};
    }
    return true;
  }

  method ValidateRecord(suite: Suite, r: Record) returns (ok: bool)
    ensures ok <==> ValidRecord(suite, r)
  {
    if !(86400 * r.date <= r.stamp.instant < 86400 * (r.date + 1)) {
      return false;
    }
    var commit := MatchesHex(r.commit, 8, 40);
    if !commit || r.runId <= 0 {
      return false;
    }
    var platform := HasFields(r.env.fields, ["runner", "os", "architecture", "measurement"]);
    if !platform {
      return false;
    }
    var cases := ValidateCases(suite, r.cases);
    if !cases {
      return false;
    }
    if !r.env.legacy {
      if r.env.iterations.None? || r.env.iterations.value < 1 || r.env.warmup.None? || r.env.warmup.value < 0 {
        return false;
      }
      for i := 0 to |r.cases|
        invariant forall c | c in r.cases[..i] :: MeasuredAsDeclared(r.env, c)
      {
        assert r.cases[..i + 1] == r.cases[..i] + [r.cases[i]] && r.cases[i] in r.cases;
        var measured := ValidateMeasured(r.env, r.cases[i]);
        if !measured {
          return false;
        }
      }
      assert r.cases[..|r.cases|] == r.cases;
    }
    return true;
  }
}
