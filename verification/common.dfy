/**
 Building blocks shared by both collection scripts: optional values for the
 GraphQL fields that may be null, the filter that drops null search nodes,
 the guarded closed-issue ratio, the whole-day difference between two
 instants, and the "N/A" sentinel for a missing primary language.
 */
module Common {

  /** A GraphQL value that may be `null` (or an empty, falsy object). */
  datatype Option<+T> = None | Some(value: T)

  /** Sentinel stored when a repository reports no primary language. */
  const NotAvailable: string := "N/A"

  /** Seconds in one day: the unit of a `timedelta`'s `.days` field. */
  const SecondsPerDay: int := 86400

  /* ---------------------------------------------------------------- */
  /* Dropping null nodes                                               */
  /* ---------------------------------------------------------------- */

  /** The non-null elements of `s`, in their original order. */
  function Present<T>(s: seq<Option<T>>): (r: seq<T>)
    ensures |r| <= |s|
    decreases |s|
  {
    if |s| == 0 then []
    else
      var rest := Present(s[..|s| - 1]);
      match s[|s| - 1]
      case None => rest
      case Some(x) => rest + [x]
  }

  /** Dropping nulls distributes over concatenation: the output keeps the
      upstream order of the non-null elements. */
  lemma {:induction false} PresentAppend<T>(a: seq<Option<T>>, b: seq<Option<T>>)
    ensures Present(a + b) == Present(a) + Present(b)
    decreases |b|
  {
    if |b| == 0 {
      assert a + b == a;
    } else {
      var b' := b[..|b| - 1];
      assert (a + b)[..|a + b| - 1] == a + b';
      PresentAppend(a, b');
    }
  }

  /** An element survives the filter exactly when it occurs non-null. */
  lemma {:induction false} PresentMembership<T>(s: seq<Option<T>>, x: T)
    ensures x in Present(s) <==> Some(x) in s
    decreases |s|
  {
    if |s| > 0 {
      var s' := s[..|s| - 1];
      assert s == s' + [s[|s| - 1]];
      PresentMembership(s', x);
    }
  }

  /** Nothing is dropped when no element is null, and everything is
      dropped when every element is null. */
  lemma {:induction false} PresentExtremes<T>(s: seq<Option<T>>)
    ensures (forall i :: 0 <= i < |s| ==> s[i].Some?) ==> |Present(s)| == |s|
    ensures (forall i :: 0 <= i < |s| ==> s[i].None?) ==> Present(s) == []
    decreases |s|
  {
    if |s| > 0 {
      var s' := s[..|s| - 1];
      PresentExtremes(s');
    }
  }

  /** The loop `for node in nodes: if not node: continue; out.append(f(node))`:
      one output per non-null node, in upstream order. */
  function MapPresent<T, U>(s: seq<Option<T>>, f: T -> U): (r: seq<U>)
    ensures |r| == |Present(s)|
    ensures forall j :: 0 <= j < |r| ==> r[j] == f(Present(s)[j])
    decreases |s|
  {
    if |s| == 0 then []
    else
      var rest := MapPresent(s[..|s| - 1], f);
      match s[|s| - 1]
      case None => rest
      case Some(x) => rest + [f(x)]
  }

  /** The same loop when every output also takes a fresh clock reading:
      the `j`-th output is `f` of the `j`-th non-null element and the
      `j`-th reading `clock(j)`. */
  function MapPresentStamped<T, U>(s: seq<Option<T>>, f: (T, int) -> U, clock: nat -> int): (r: seq<U>)
    ensures |r| == |Present(s)|
    ensures forall j :: 0 <= j < |r| ==> r[j] == f(Present(s)[j], clock(j))
    decreases |s|
  {
    if |s| == 0 then []
    else
      var rest := MapPresentStamped(s[..|s| - 1], f, clock);
      match s[|s| - 1]
      case None => rest
      case Some(x) => rest + [f(x, clock(|rest|))]
  }

  /** Outputs are only appended: the outputs for `a` are the first
      outputs for `a + b`. */
  lemma MapPresentStampedPrefix<T, U>(a: seq<Option<T>>, b: seq<Option<T>>,
                                      f: (T, int) -> U, clock: nat -> int)
    ensures |MapPresentStamped(a + b, f, clock)| == |Present(a)| + |Present(b)|
    ensures MapPresentStamped(a + b, f, clock)[..|Present(a)|] == MapPresentStamped(a, f, clock)
  {
    PresentAppend(a, b);
    var l, r := MapPresentStamped(a + b, f, clock), MapPresentStamped(a, f, clock);
    forall j | 0 <= j < |r|
      ensures l[j] == r[j]
    {
      assert Present(a + b)[j] == Present(a)[j];
    }
    assert l[..|r|] == r;
  }

  /* ---------------------------------------------------------------- */
  /* Derived columns                                                   */
  /* ---------------------------------------------------------------- */

  /** `num / den if den > 0 else 0`: never undefined, zero when the
      denominator is not positive. */
  function GuardedRatio(num: int, den: int): (r: real)
    ensures den > 0 ==> r * (den as real) == num as real
    ensures den <= 0 ==> r == 0.0
  {
    if den > 0 then (num as real) / (den as real) else 0.0
  }

  /** A count of closed issues out of a total is a fraction in [0, 1]. */
  lemma RatioInUnitInterval(num: int, den: int)
    ensures 0 <= num <= den ==> 0.0 <= GuardedRatio(num, den) <= 1.0
    ensures 0 <= num <= den ==> (GuardedRatio(num, den) == 1.0 <==> 0 < num == den)
    ensures 0 <= num <= den ==> (GuardedRatio(num, den) == 0.0 <==> num == 0)
  {
  }

  /** `(now - since).days`: the number of whole days elapsed, rounded
      towards minus infinity as Python's `timedelta` does. Instants are
      whole seconds. */
  function ElapsedDays(now: int, since: int): (d: int)
    ensures d * SecondsPerDay <= now - since < (d + 1) * SecondsPerDay
    ensures d >= 0 <==> since <= now
  {
    (now - since) / SecondsPerDay
  }

  /** The floor bounds pin the day count down: no other whole number of
      days brackets the elapsed time. */
  lemma ElapsedDaysUnique(now: int, since: int, d: int)
    requires d * SecondsPerDay <= now - since < (d + 1) * SecondsPerDay
    ensures d == ElapsedDays(now, since)
  {
  }

  /** `lang['name'] if lang else 'N/A'`. */
  function LanguageOrSentinel(lang: Option<string>): (r: string)
    ensures lang.Some? ==> r == lang.value
    ensures r == NotAvailable <==> lang == None || lang == Some(NotAvailable)
  {
    match lang
    case None => NotAvailable
    case Some(name) => name
  }
}
