/** Lookups of required and optional parameters in a request's decoded query
    string (package qp, file qp.go).

    The query string is given as the map that `r.URL.Query()` produces: each
    parameter name is bound to the ordered list of its values, one per
    occurrence in the URL. Nothing here changes that map; every operation
    builds a fresh result. */
module Qp {
  import opened Wrappers

  /** The decoded query string: parameter name to its values in URL order. */
  type Query = map<string, seq<string>>

  /** The single error the package reports: a required parameter is absent. */
  datatype QueryError = Missing(name: string)

  /** What `url.Values` from `r.URL.Query()` guarantees: a name occurs in the
      map only if it occurred in the URL, so it has at least one value. */
  predicate ValuesNonEmpty(qs: Query)
  {
    forall k :: k in qs ==> |qs[k]| > 0
  }

  /** What RequiredParam demands: each requested name that is present has a
      first value, so that `v[0]` is in bounds. */
  predicate RequestedHaveValues(qs: Query, keys: seq<string>)
  {
    forall i :: 0 <= i < |keys| && keys[i] in qs ==> |qs[keys[i]]| > 0
  }

  /** The set of requested names, repetitions counted once. */
  function KeySet(keys: seq<string>): set<string>
  {
    set k | k in keys
  }

  /** Position `i` of `keys` is the first requested name absent from `qs`,
      or `i == |keys|` when none is. */
  predicate FirstMissingAt(qs: Query, keys: seq<string>, i: nat)
  {
    && i <= |keys|
    && (forall j :: 0 <= j < i ==> keys[j] in qs)
    && (i < |keys| ==> keys[i] !in qs)
  }

  /** Where the key loop of RequiredParams and RequiredParam stops: the index
      of the first absent name, or `|keys|` when all are present. */
  function FirstMissingIndex(qs: Query, keys: seq<string>): (i: nat)
    ensures FirstMissingAt(qs, keys, i)
  {
    if keys == [] then 0
    else if keys[0] !in qs then 0
    else 1 + FirstMissingIndex(qs, keys[1..])
  }

  /** The outcome RequiredParams promises: every value list of the requested
      names, or the error naming the first absent one. */
  function RequiredParamsSpec(qs: Query, keys: seq<string>): (r: Result<map<string, seq<string>>, QueryError>)
    ensures r.Success? <==> forall i :: 0 <= i < |keys| ==> keys[i] in qs
    ensures r.Success? ==> r.value.Keys == KeySet(keys)
    ensures r.Success? ==> forall k :: k in r.value ==> r.value[k] == qs[k]
    ensures r.Failure? ==> exists i: nat :: FirstMissingAt(qs, keys, i) && i < |keys| && r.error == Missing(keys[i])
  {
    var i := FirstMissingIndex(qs, keys);
    if i < |keys| then Failure(Missing(keys[i]))
    else Success(map k | k in keys :: qs[k])
  }

  /** The outcome RequiredParam promises: the first value of every requested
      name, or the error naming the first absent one. */
  function RequiredParamSpec(qs: Query, keys: seq<string>): (r: Result<map<string, string>, QueryError>)
    requires RequestedHaveValues(qs, keys)
    ensures r.Success? <==> forall i :: 0 <= i < |keys| ==> keys[i] in qs
    ensures r.Success? ==> r.value.Keys == KeySet(keys)
    ensures r.Success? ==> forall k :: k in r.value ==> |qs[k]| > 0 && r.value[k] == qs[k][0]
    ensures r.Failure? ==> exists i: nat :: FirstMissingAt(qs, keys, i) && i < |keys| && r.error == Missing(keys[i])
  {
    var i := FirstMissingIndex(qs, keys);
    if i < |keys| then Failure(Missing(keys[i]))
    else Success(map k | k in keys :: qs[k][0])
  }

  /** RequiredParams: walks the requested names in order, copying each one's
      value list into a fresh map, and gives up at the first absent name. */
  method RequiredParams(qs: Query, keys: seq<string>) returns (r: Result<map<string, seq<string>>, QueryError>)
    ensures r == RequiredParamsSpec(qs, keys)
  {
    var vs: map<string, seq<string>> := map[];
    for i := 0 to |keys|
      invariant forall j :: 0 <= j < i ==> keys[j] in qs
      invariant vs.Keys == KeySet(keys[..i])
      invariant forall k :: k in vs ==> k in qs && vs[k] == qs[k]
    {
      var p := keys[i];
      if p in qs {
        var v := qs[p];
        vs := vs[p := v];
      } else {
        assert FirstMissingAt(qs, keys, i);
        FirstMissingUnique(qs, keys, i, FirstMissingIndex(qs, keys));
        return Failure(Missing(p));
      }
      assert keys[..i + 1] == keys[..i] + [p];
    }
    assert keys[..|keys|] == keys;
    FirstMissingUnique(qs, keys, |keys|, FirstMissingIndex(qs, keys));
    assert vs == map k | k in keys :: qs[k];
    r := Success(vs);
  }

  /** RequiredParam: as RequiredParams, but keeps only the first value
      (`v[0]`) of each requested name. */
  method RequiredParam(qs: Query, keys: seq<string>) returns (r: Result<map<string, string>, QueryError>)
    requires RequestedHaveValues(qs, keys)
    ensures r == RequiredParamSpec(qs, keys)
  {
    var vs: map<string, string> := map[];
    for i := 0 to |keys|
      invariant forall j :: 0 <= j < i ==> keys[j] in qs
      invariant vs.Keys == KeySet(keys[..i])
      invariant forall k :: k in vs ==> k in qs && |qs[k]| > 0 && vs[k] == qs[k][0]
    {
      var p := keys[i];
      if p in qs {
        var v := qs[p];
        vs := vs[p := v[0]];
      } else {
        assert FirstMissingAt(qs, keys, i);
        FirstMissingUnique(qs, keys, i, FirstMissingIndex(qs, keys));
        return Failure(Missing(p));
      }
      assert keys[..i + 1] == keys[..i] + [p];
    }
    assert keys[..|keys|] == keys;
    FirstMissingUnique(qs, keys, |keys|, FirstMissingIndex(qs, keys));
    assert vs == map k | k in keys :: qs[k][0];
    r := Success(vs);
  }

  /** Params: the value list of one optional name, `None` (Go: nil) when the
      name is absent. It has no error case. */
  function Params(qs: Query, key: string): (r: Option<seq<string>>)
    ensures r.Some? <==> key in qs
    ensures r.Some? ==> r.value == qs[key]
  {
    if key in qs then Some(qs[key]) else None
  }

  /** The first absent position is determined uniquely. */
  lemma FirstMissingUnique(qs: Query, keys: seq<string>, i: nat, j: nat)
    requires FirstMissingAt(qs, keys, i) && FirstMissingAt(qs, keys, j)
    ensures i == j
  {
  }

  /** No name occurs twice in `keys`. */
  predicate Distinct(keys: seq<string>)
  {
    forall i, j :: 0 <= i < j < |keys| ==> keys[i] != keys[j]
  }

  /** `keys` with a repetition of its `i`th name inserted at position `j`. */
  function RepeatAt(keys: seq<string>, i: nat, j: nat): (r: seq<string>)
    requires i < j <= |keys|
    ensures |r| == |keys| + 1
  {
    keys[..j] + [keys[i]] + keys[j..]
  }

  /** A sequence has at most as many distinct names as entries, and exactly
      as many when no name repeats. */
  lemma {:induction false} KeySetSize(keys: seq<string>)
    ensures |KeySet(keys)| <= |keys|
    ensures Distinct(keys) ==> |KeySet(keys)| == |keys|
  {
    if keys != [] {
      var rest := keys[1..];
      KeySetSize(rest);
      assert KeySet(keys) == {keys[0]} + KeySet(rest) by {
        forall k ensures k in KeySet(keys) <==> k == keys[0] || k in KeySet(rest) {
          if k in keys && k != keys[0] {
            var n :| 0 <= n < |keys| && keys[n] == k;
            assert rest[n - 1] == k;
          }
        }
      }
      if Distinct(keys) {
        assert Distinct(rest) by {
          forall a, b | 0 <= a < b < |rest| ensures rest[a] != rest[b] {
            assert rest[a] == keys[a + 1] && rest[b] == keys[b + 1];
          }
        }
        assert keys[0] !in KeySet(rest);
      }
    }
  }

  /** Inserting a repetition of an earlier name does not move the first
      absent name: the position may shift by one, the name does not. */
  lemma FirstMissingAfterRepeat(qs: Query, keys: seq<string>, i: nat, j: nat)
    requires i < j <= |keys|
    ensures var m, m' := FirstMissingIndex(qs, keys), FirstMissingIndex(qs, RepeatAt(keys, i, j));
      && (m < |keys| <==> m' < |keys| + 1)
      && (m < |keys| ==> RepeatAt(keys, i, j)[m'] == keys[m])
  {
    var keys' := RepeatAt(keys, i, j);
    var m := FirstMissingIndex(qs, keys);
    assert forall n :: 0 <= n < j ==> keys'[n] == keys[n];
    assert forall n :: j < n <= |keys| ==> keys'[n] == keys[n - 1];
    if m < j {
      FirstMissingUnique(qs, keys', m, FirstMissingIndex(qs, keys'));
    } else {
      assert keys'[j] == keys[i] && keys[i] in qs;
      FirstMissingUnique(qs, keys', m + 1, FirstMissingIndex(qs, keys'));
    }
  }

  /** Inserting a repetition adds no new name. */
  lemma KeySetAfterRepeat(keys: seq<string>, i: nat, j: nat)
    requires i < j <= |keys|
    ensures KeySet(RepeatAt(keys, i, j)) == KeySet(keys)
  {
  }

  /** Asking for a name twice changes nothing in RequiredParams: the later
      write stores the value list already stored. */
  lemma {:induction false} RequiredParamsRepeatedKey(qs: Query, keys: seq<string>, i: nat, j: nat)
    requires i < j <= |keys|
    ensures RequiredParamsSpec(qs, RepeatAt(keys, i, j)) == RequiredParamsSpec(qs, keys)
  {
    FirstMissingAfterRepeat(qs, keys, i, j);
    KeySetAfterRepeat(keys, i, j);
  }

  /** Asking for a name twice changes nothing in RequiredParam either. */
  lemma {:induction false} RequiredParamRepeatedKey(qs: Query, keys: seq<string>, i: nat, j: nat)
    requires i < j <= |keys|
    requires RequestedHaveValues(qs, keys)
    ensures RequestedHaveValues(qs, RepeatAt(keys, i, j))
    ensures RequiredParamSpec(qs, RepeatAt(keys, i, j)) == RequiredParamSpec(qs, keys)
  {
    var keys' := RepeatAt(keys, i, j);
    forall n | 0 <= n < |keys'| && keys'[n] in qs ensures |qs[keys'[n]]| > 0 {
      if n < j { assert keys'[n] == keys[n]; }
      else if n == j { assert keys'[n] == keys[i]; }
      else { assert keys'[n] == keys[n - 1]; }
    }
    FirstMissingAfterRepeat(qs, keys, i, j);
    KeySetAfterRepeat(keys, i, j);
  }

  /** A successful result holds one entry per distinct requested name: never
      more entries than names asked for, and exactly that many when no name
      repeats. */
  lemma {:induction false} RequiredParamsSize(qs: Query, keys: seq<string>)
    requires RequiredParamsSpec(qs, keys).Success?
    ensures |RequiredParamsSpec(qs, keys).value| == |KeySet(keys)| <= |keys|
    ensures Distinct(keys) ==> |RequiredParamsSpec(qs, keys).value| == |keys|
  {
    KeySetSize(keys);
    assert |RequiredParamsSpec(qs, keys).value| == |RequiredParamsSpec(qs, keys).value.Keys|;
  }

  /** The same for RequiredParam: one entry per distinct requested name. */
  lemma {:induction false} RequiredParamSize(qs: Query, keys: seq<string>)
    requires RequestedHaveValues(qs, keys)
    requires RequiredParamSpec(qs, keys).Success?
    ensures |RequiredParamSpec(qs, keys).value| == |KeySet(keys)| <= |keys|
    ensures Distinct(keys) ==> |RequiredParamSpec(qs, keys).value| == |keys|
  {
    KeySetSize(keys);
    assert |RequiredParamSpec(qs, keys).value| == |RequiredParamSpec(qs, keys).value.Keys|;
  }

  /** A map as `url.Query()` builds it, every name with at least one value,
      meets RequiredParam's precondition whatever the requested names. */
  lemma ValuesNonEmptyMeetsRequested(qs: Query, keys: seq<string>)
    requires ValuesNonEmpty(qs)
    ensures RequestedHaveValues(qs, keys)
  {
  }

  /** RequiredParam succeeds exactly when RequiredParams does, fails with the
      same error, and keeps the first of the values RequiredParams returns. */
  lemma {:induction false} RequiredParamAgreesWithRequiredParams(qs: Query, keys: seq<string>)
    requires RequestedHaveValues(qs, keys)
    ensures var one, all := RequiredParamSpec(qs, keys), RequiredParamsSpec(qs, keys);
      && (one.Success? <==> all.Success?)
      && (one.Failure? ==> all.Failure? && one.error == all.error)
      && (one.Success? ==> one.value.Keys == all.value.Keys
                           && forall k :: k in one.value ==> one.value[k] == all.value[k][0])
  {
  }

  /** For one name, the optional lookup Params and the required lookup agree:
      Params finds the values exactly when RequiredParams succeeds with them,
      and finds nothing exactly when RequiredParams reports that name. */
  lemma {:induction false} ParamsAgreesWithRequiredParams(qs: Query, key: string)
    ensures forall v :: Params(qs, key) == Some(v) <==> RequiredParamsSpec(qs, [key]) == Success(map[key := v])
    ensures Params(qs, key) == None <==> RequiredParamsSpec(qs, [key]) == Failure(Missing(key))
  {
    var r := RequiredParamsSpec(qs, [key]);
    if key in qs {
      assert KeySet([key]) == {key};
      assert r.value == map[key := qs[key]];
    }
  }

  /** The package's test scenarios: `?required=1`, `?required=1&required=2`
      and an empty query string, each asked for "required". */
  lemma TestScenarios()
    ensures var one, two, none := map["required" := ["1"]], map["required" := ["1", "2"]], map[];
      && RequiredParamsSpec(one, ["required"]) == Success(map["required" := ["1"]])
      && RequiredParamsSpec(two, ["required"]) == Success(map["required" := ["1", "2"]])
      && RequiredParamsSpec(none, ["required"]) == Failure(Missing("required"))
      && RequiredParamSpec(one, ["required"]) == Success(map["required" := "1"])
      && RequiredParamSpec(two, ["required"]) == Success(map["required" := "1"])
      && RequiredParamSpec(none, ["required"]) == Failure(Missing("required"))
      && Params(one, "required") == Some(["1"])
      && Params(two, "required") == Some(["1", "2"])
      && Params(none, "required") == None
  {
    var one: Query, two: Query, none: Query := map["required" := ["1"]], map["required" := ["1", "2"]], map[];
    ParamsAgreesWithRequiredParams(one, "required");
    ParamsAgreesWithRequiredParams(two, "required");
    RequiredParamAgreesWithRequiredParams(one, ["required"]);
    RequiredParamAgreesWithRequiredParams(two, ["required"]);
    assert KeySet(["required"]) == {"required"};
    assert RequiredParamSpec(one, ["required"]).value == map["required" := one["required"][0]];
    assert RequiredParamSpec(two, ["required"]).value == map["required" := two["required"][0]];
  }
}
