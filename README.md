# qp: required and optional query-string parameters, in Dafny

The Go package `qp` reads parameters out of an HTTP request's decoded query
string. Required lookups either return every requested parameter or fail with
"missing required parameter" naming the first absent one. The optional lookup
returns nothing when the parameter is absent.

This project models the package's three functions over the map that
`r.URL.Query()` returns. The map is `Qp.Query = map<string, seq<string>>`:
each parameter name is bound to its values in the order they occur in the URL.

- `wrappers.dfy`, module `Wrappers`: `Option` stands for a Go value that can
  be nil. `Result` stands for a Go `(value, error)` pair.
- `qp.dfy`, module `Qp`:
  - `RequiredParams` and `RequiredParam` are methods with the Go loop over the
    requested keys, including its early return. Each is proved equal to a
    specification function, `RequiredParamsSpec` or `RequiredParamSpec`.
  - The specification functions state the success condition (every requested
    key is present), the key set and value of a successful result, and that a
    failure names the first absent key.
  - `Params` is a function.
  - Lemmas relate the three operations to each other. They also show that
    repeated keys do not matter, bound the size of a result, and replay the
    package's test scenarios.
  - The error is the datatype `QueryError.Missing(name)`, not a message string.

Nothing changes the query map. Dafny maps are values, so no function changes
`qs` and each call builds a fresh result map, by construction.

`qp.go` defines `RequiredParams`, `RequiredParam` and `Params`. The tests also
call `qp.Param`, which `qp.go` does not define.

## Model

| member | source | states |
|---|---|---|
| `Qp.FirstMissingIndex` | qp.go:14-20 | the index where the key loop stops: every earlier requested key is present, and the key at the index (if any) is absent |
| `Qp.RequiredParamsSpec` | qp.go:10-24 | succeeds exactly when every requested key is present; on success the keys are exactly the requested set and each maps to its full value list `qs[k]`; on failure the error is `Missing` of the first absent key in request order |
| `Qp.RequiredParamSpec` | qp.go:29-43 | same success condition and first-absent-key error as RequiredParams; on success each requested key maps to `qs[k][0]`, its first occurrence |
| `Qp.RequiredParams` | qp.go:10-24 | the loop that fills `vs` key by key and returns at the first miss yields exactly `RequiredParamsSpec` |
| `Qp.RequiredParam` | qp.go:29-43 | the loop that stores `v[0]` per key, with `v[0]` in bounds under the precondition, yields exactly `RequiredParamSpec` |
| `Qp.Params` | qp.go:47-55 | returns `Some(qs[key])` when the key is present and `None` (nil) when absent; there is no error case |
| `Qp.RequiredParamAgreesWithRequiredParams` | qp.go:33-42 | RequiredParam succeeds exactly when RequiredParams does, fails with the same error, and on success keeps the first of each value list RequiredParams returns |
| `Qp.ParamsAgreesWithRequiredParams` | qp.go:50-54 | for one key, Params returns `Some(v)` exactly when RequiredParams returns `{key: v}`, and `None` exactly when RequiredParams fails with `Missing(key)` |
| `Qp.RequiredParamsRepeatedKey` | qp.go:14-17 | inserting a repetition of an earlier requested key anywhere after it leaves RequiredParams' outcome unchanged, error included |
| `Qp.RequiredParamRepeatedKey` | qp.go:33-36 | the same for RequiredParam, and the repetition keeps its precondition satisfied |
| `Qp.RequiredParamsSize` | qp.go:12-23 | a successful result has one entry per distinct requested key, so at most as many as keys requested and exactly that many when no key repeats |
| `Qp.KeySetSize` | qp.go:14 | a key list has at most as many distinct keys as entries, and exactly as many when no key repeats |
| `Qp.RequiredParamSize` | qp.go:31-42 | a successful RequiredParam result has one entry per distinct requested key, so at most as many as keys requested and exactly that many when no key repeats |
| `Qp.ValuesNonEmptyMeetsRequested` | qp.go:36 | a map in which every name has at least one value, as `url.Query()` produces, meets RequiredParam's precondition for any requested keys |
| `Qp.TestScenarios` | qp_test.go:15-143 | `?required=1`, `?required=1&required=2` and an empty query string give the results the tests expect from RequiredParams and RequiredParam; for Params, qp.go's list-returning Params gives `["1"]`, `["1", "2"]` and `None` on those queries |

## Left out

- `*http.Request` and `r.URL.Query()`: URL parsing and percent-decoding belong to Go's `net/url`, which is not part of this model. Its output is the input map `qs`. The predicate `Qp.ValuesNonEmpty` states what it guarantees: every present name has at least one value. `Qp.ValuesNonEmptyMeetsRequested` proves that this is enough for RequiredParam.
- Qp.RequiredParam: requires `RequestedHaveValues`, meaning every requested key that is present has a non-empty value list. In Go, `v[0]` panics on an empty list. Any map from `url.Query()` satisfies this. The precondition is slightly stronger than needed, because keys after the first absent one are never looked up.
- `fmt.Errorf` message formatting: the error is the datatype `Missing(name)` carrying the key. The text "missing required parameter '…'" is not modelled.
- `qp.Param`: the tests call it (qp_test.go:156-185), but `qp.go` does not define it, so it is not modelled.
- Go slice aliasing: `vs[p] = v` shares its backing array with `qs`. Also the difference between a nil map and an empty map. Neither is observable in a value model.
- Qp.TestScenarios: the Params tests (qp_test.go:114-130) are written for a Params that returns a map: they index the result with `params["required"]`, which a `[]string` does not allow. qp.go does not define such a Params. The lemma checks qp.go's Params, which returns the value list, instead. The length-1 check at qp_test.go:128 is not reproduced: on `?required=1&required=2` qp.go's Params returns a list of length 2.
