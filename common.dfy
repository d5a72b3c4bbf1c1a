/** Small pieces shared by both deployment variants: optional values, the
    Python string and truthiness idioms the source relies on, and the
    outcome of one fetch task as the write loop sees it. */
module Common {

  datatype Option<T> = None | Some(value: T)

  /** Python's `sub in s` on strings: `sub` occurs as a contiguous run of `s`. */
  predicate Contains(s: string, sub: string)
    decreases |s|
  {
    sub <= s || (s != [] && Contains(s[1..], sub))
  }

  /** `sub` starts at position `i` of `s`. */
  predicate OccursAt(s: string, sub: string, i: int)
  {
    0 <= i <= |s| - |sub| && s[i..i + |sub|] == sub
  }

  /** `Contains` agrees with the positional definition of a substring. */
  lemma {:induction false} ContainsAt(s: string, sub: string)
    ensures Contains(s, sub) <==> exists i :: OccursAt(s, sub, i)
    decreases |s|
  {
    if sub <= s {
      assert OccursAt(s, sub, 0);
    } else if s == [] {
      assert forall i :: !OccursAt(s, sub, i);
    } else {
      ContainsAt(s[1..], sub);
      if i :| OccursAt(s, sub, i) {
        assert i != 0;
        assert s[1..][i - 1..i - 1 + |sub|] == s[i..i + |sub|];
        assert OccursAt(s[1..], sub, i - 1);
      }
      if i :| OccursAt(s[1..], sub, i) {
        assert s[i + 1..i + 1 + |sub|] == s[1..][i..i + |sub|];
        assert OccursAt(s, sub, i + 1);
      }
    }
  }

  /** Concatenation is associative; stated once so that proofs about
      concatenated results need not re-derive it element by element. */
  lemma {:induction false} AppendAssoc<T>(a: seq<T>, b: seq<T>, c: seq<T>)
    ensures a + b + c == a + (b + c)
  {
  }

  /** Python truthiness of an optional string: present and not empty. */
  predicate Truthy(s: Option<string>)
  {
    s.Some? && s.value != ""
  }

  /** Python's `s or default` on an optional string. */
  function Or(s: Option<string>, default: string): string
  {
    if Truthy(s) then s.value else default
  }

  /** What `future.result()` gives the write loop: the task's list of
      articles, or an exception raised while collecting it. */
  datatype TaskResult<A> = Raised | Returned(articles: seq<A>)

  /** The articles the write loop visits, task by task in submission order;
      a task that raised contributes none. */
  function Written<A>(results: seq<TaskResult<A>>): seq<A>
    decreases |results|
  {
    if results == [] then []
    else
      var last := results[|results| - 1];
      Written(results[..|results| - 1]) + (if last.Returned? then last.articles else [])
  }

  lemma {:induction false} WrittenSnoc<A>(results: seq<TaskResult<A>>, r: TaskResult<A>)
    ensures Written(results + [r]) == Written(results) + (if r.Returned? then r.articles else [])
  {
    assert (results + [r])[..|results|] == results;
  }

  lemma {:induction false} WrittenAppend<A>(r1: seq<TaskResult<A>>, r2: seq<TaskResult<A>>)
    ensures Written(r1 + r2) == Written(r1) + Written(r2)
    decreases |r2|
  {
    if r2 == [] {
      assert r1 + r2 == r1;
    } else {
      var init := r2[..|r2| - 1];
      assert (r1 + r2)[..|r1 + r2| - 1] == r1 + init;
      WrittenAppend(r1, init);
    }
  }

  /** A task whose result raised contributes nothing and does not stop the
      tasks after it from being written. */
  lemma {:induction false} RaisedContributesNothing<A>(before: seq<TaskResult<A>>, after: seq<TaskResult<A>>)
    ensures Written(before + [Raised] + after) == Written(before) + Written(after)
  {
    var raised: seq<TaskResult<A>> := [Raised];
    assert Written(raised) == [] by {
      assert raised[..0] == [];
    }
    calc {
      Written(before + raised + after);
      { WrittenAppend(before + raised, after); }
      Written(before + raised) + Written(after);
      { WrittenAppend(before, raised); }
      Written(before) + Written(raised) + Written(after);
      Written(before) + Written(after);
    }
  }

  /** Lists the elements of a finite set one by one, each exactly once, in
      an order the caller may not rely on. */
  method ListElements<K>(elements: set<K>) returns (listed: seq<K>)
    ensures forall i, j :: 0 <= i < j < |listed| ==> listed[i] != listed[j]
    ensures forall k :: k in elements <==> k in listed
    ensures forall i :: 0 <= i < |listed| ==> listed[i] in elements
    ensures |listed| == |elements|
  {
    listed := [];
    var remaining := elements;
    while remaining != {}
      invariant remaining <= elements
      invariant forall i :: 0 <= i < |listed| ==> listed[i] in elements && listed[i] !in remaining
      invariant forall i, j :: 0 <= i < j < |listed| ==> listed[i] != listed[j]
      invariant forall k :: k in elements ==> k in remaining || k in listed
      invariant |listed| + |remaining| == |elements|
      decreases |remaining|
    {
      var k :| k in remaining;
      listed := listed + [k];
      remaining := remaining - {k};
    }
  }
}
