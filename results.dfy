/** Failure-carrying values shared by every module of the model. */
module Results {

  datatype Option<+T> = None | Some(value: T)

  /** The value of a call that either succeeds or raises the exception `error`. */
  datatype Result<+T, +E> = Ok(value: T) | Err(error: E)

  /**
   * `[f(x) for x in s]` where `f` may raise: the results in order, or the
   * exception of the first element that raises.
   */
  function MapResult<A, B, E>(s: seq<A>, f: A -> Result<B, E>): Result<seq<B>, E>
  {
    if s == [] then Ok([])
    else
      var init := MapResult(s[..|s| - 1], f);
      if init.Err? then init
      else
        match f(s[|s| - 1])
        case Err(e) => Err(e)
        case Ok(last) => Ok(init.value + [last])
  }

  /** The mapping succeeds exactly when every element does, and then holds each element's result. */
  lemma {:induction false} MapResultOk<A, B, E>(s: seq<A>, f: A -> Result<B, E>)
    ensures MapResult(s, f).Ok? <==> forall i :: 0 <= i < |s| ==> f(s[i]).Ok?
    ensures MapResult(s, f).Ok? ==>
      |MapResult(s, f).value| == |s| && forall i :: 0 <= i < |s| ==> f(s[i]) == Ok(MapResult(s, f).value[i])
  {
    if s != [] {
      var init := s[..|s| - 1];
      MapResultOk(init, f);
      assert forall i :: 0 <= i < |init| ==> init[i] == s[i];
    }
  }

  /** When some element raises, the first such element decides the exception. */
  lemma {:induction false} MapResultFirstError<A, B, E>(s: seq<A>, f: A -> Result<B, E>, i: nat)
    requires i < |s| && f(s[i]).Err?
    requires forall j :: 0 <= j < i ==> f(s[j]).Ok?
    ensures MapResult(s, f) == Err(f(s[i]).error)
    decreases |s|
  {
    var init := s[..|s| - 1];
    if i < |s| - 1 {
      assert init[i] == s[i];
      MapResultFirstError(init, f, i);
    } else {
      MapResultOk(init, f);
      assert forall j :: 0 <= j < |init| ==> init[j] == s[j];
    }
  }

  /** `[y for x in s if (y := f(x)) is not None]`: the present results, in order. */
  function Collect<A, B>(s: seq<A>, f: A -> Option<B>): seq<B>
  {
    if s == [] then []
    else
      var last := f(s[|s| - 1]);
      Collect(s[..|s| - 1], f) + (if last.Some? then [last.value] else [])
  }

  /** Collecting keeps the order of the elements. */
  lemma {:induction false} CollectAppend<A, B>(a: seq<A>, b: seq<A>, f: A -> Option<B>)
    ensures Collect(a + b, f) == Collect(a, f) + Collect(b, f)
    decreases |b|
  {
    if b == [] {
      assert a + b == a;
    } else {
      assert (a + b)[..|a + b| - 1] == a + b[..|b| - 1];
      CollectAppend(a, b[..|b| - 1], f);
    }
  }

  /** A value is collected exactly when some element gives it. */
  lemma {:induction false} CollectMember<A, B>(s: seq<A>, f: A -> Option<B>, y: B)
    ensures y in Collect(s, f) <==> exists k :: 0 <= k < |s| && f(s[k]) == Some(y)
  {
    if s != [] {
      var init, last := s[..|s| - 1], f(s[|s| - 1]);
      CollectMember(init, f, y);
      assert Collect(s, f) == Collect(init, f) + (if last.Some? then [last.value] else []);
      if exists k :: 0 <= k < |s| && f(s[k]) == Some(y) {
        var k :| 0 <= k < |s| && f(s[k]) == Some(y);
        if k < |s| - 1 {
          assert init[k] == s[k];
        }
      }
      if y in Collect(init, f) {
        var k :| 0 <= k < |init| && f(init[k]) == Some(y);
        assert s[k] == init[k];
      }
    }
  }
}
