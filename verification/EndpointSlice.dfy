/** Publishing one endpoint into a slice's status, and when that is a fixed point (ephemeral/pkg/endpointslice). */
module EndpointSlice {
  import opened Options

  /** Unstructured content. */
  datatype Value = Scalar(text: string) | List(items: seq<Value>) | Object(fields: map<string, Value>)

  /** Comparing two lists with != panics in Go: slices are not comparable. */
  datatype Verdict = Equal | Different | Panicked

  predicate ListFree(v: Value) {
    match v
    case Scalar(_) => true
    case List(_) => false
    case Object(fields) => forall k <- fields :: ListFree(fields[k])
  }

  /** equalValues: walks the keys of `b` in any order and stops at the first difference or panic. */
  method EqualValues(a: map<string, Value>, b: map<string, Value>) returns (r: Verdict)
    ensures r == Equal ==> a == b
    ensures r == Different ==> a != b
    ensures ListFree(Object(b)) ==> r != Panicked
    ensures a == b && !ListFree(Object(b)) ==> r == Panicked
    decreases Object(b)
  {
    if |a| != |b| {
      return Different;
    }
    var rest := b.Keys;
    while rest != {}
      invariant rest <= b.Keys
      invariant forall k | k in b && k !in rest :: k in a && a[k] == b[k] && ListFree(b[k])
    {
      var key :| key in rest;
      rest := rest - {key};
      if key !in a {
        return Different;
      }
      var want, got := b[key], a[key];
      if want.Object? {
        if !got.Object? {
          return Different;
        }
        assert Object(want.fields) == want;
        var nested := EqualValues(got.fields, want.fields);
        if nested != Equal {
          assert nested == Panicked ==> !ListFree(want);
          return nested;
        }
        assert ListFree(want);
      } else if want.List? && got.List? {
        assert !ListFree(want);
        return Panicked;
      } else if got != want {
        return Different;
      }
    }
    SameKeys(a, b);
    assert forall k <- b :: ListFree(b[k]);
    return Equal;
  }

  lemma SameKeys(a: map<string, Value>, b: map<string, Value>)
    requires |a| == |b| && b.Keys <= a.Keys
    ensures a.Keys == b.Keys
  {
    assert |a.Keys| == |b.Keys|;
    var extra := a.Keys - b.Keys;
    assert |extra| == |a.Keys| - |b.Keys| by {
      assert a.Keys == extra + b.Keys;
    }
  }

  datatype Outcome = Unchanged | Written | Crashed

  class Slice {
    /** status.endpoints, when it is there and is a list. */
    var endpoints: Option<seq<Value>>

    constructor (endpoints: Option<seq<Value>>)
      ensures this.endpoints == endpoints
    {
      this.endpoints := endpoints;
    }

    /** `endpoint` holds the fields of the one endpoint to advertise. */
    method Publish(endpoint: map<string, Value>) returns (outcome: Outcome)
      modifies this
      ensures outcome != Crashed ==> endpoints == Some([Object(endpoint)])
      ensures outcome == Crashed ==> endpoints == old(endpoints)
      ensures outcome == Unchanged <==> old(endpoints) == Some([Object(endpoint)]) && ListFree(Object(endpoint))
      ensures ListFree(Object(endpoint)) ==> outcome != Crashed
      ensures old(endpoints) == Some([Object(endpoint)]) && !ListFree(Object(endpoint)) ==> outcome == Crashed
    {
      if endpoints.Some? && |endpoints.value| == 1 && endpoints.value[0].Object? {
        assert endpoints.value == [endpoints.value[0]];
        var r := EqualValues(endpoints.value[0].fields, endpoint);
        if r == Panicked {
          return Crashed;
        }
        if r == Equal {
          return Unchanged;
        }
      }
      endpoints := Some([Object(endpoint)]);
      return Written;
    }
  }

  /**
   * From any status: publishing settles after one write exactly when the endpoint holds no list, as with a
   * label selector by labels alone; with a list inside, the next pass panics on what this one wrote.
   */
  method PublishTwice(slice: Slice, endpoint: map<string, Value>) returns (first: Outcome, second: Outcome)
    modifies slice
    ensures second == Unchanged <==> ListFree(Object(endpoint))
    ensures first == Written && !ListFree(Object(endpoint)) ==> second == Crashed
  {
    first := slice.Publish(endpoint);
    second := slice.Publish(endpoint);
  }
}
