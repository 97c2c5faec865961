/** Start-up checks across scopes and listeners, and why they make scope selection unique. */
module Config {
  import opened Prelude
  import opened Scopes
  import opened Server
  import opened Effects
  import opened Validation

  datatype ConfigProblem =
    | NoListeners
    | BadScope(id: ScopeId, error: ScopeError)
    | ScopeWithoutListener(name: string)
    | AmbiguousListener(ip: Ip)

  function Tagged(id: ScopeId, errs: seq<ScopeError>, n: nat): (r: seq<ConfigProblem>)
    requires n <= |errs|
    ensures |r| == n
  {
    if n == 0 then [] else Tagged(id, errs, n - 1) + [BadScope(id, errs[n - 1])]
  }

  function ScopeProblems(scopes: seq<Scope>, n: nat): seq<ConfigProblem>
    requires n <= |scopes|
  {
    if n == 0 then []
    else
      var errs := ValidateErrors(scopes[n - 1]);
      ScopeProblems(scopes, n - 1) + Tagged(scopes[n - 1].id, errs, |errs|)
  }

  predicate Listens(s: Scope, listeners: seq<Ip>) {
    exists l :: l in listeners && s.Contains(l)
  }

  function UnheardProblems(scopes: seq<Scope>, listeners: seq<Ip>, n: nat): seq<ConfigProblem>
    requires n <= |scopes|
  {
    if n == 0 then []
    else
      var s := scopes[n - 1];
      UnheardProblems(scopes, listeners, n - 1)
      + if !s.viaRelay && !Listens(s, listeners) then [ScopeWithoutListener(s.name)] else []
  }

  function AmbiguityProblems(scopes: seq<Scope>, listeners: seq<Ip>, n: nat): seq<ConfigProblem>
    requires n <= |listeners|
  {
    if n == 0 then []
    else
      AmbiguityProblems(scopes, listeners, n - 1)
      + if |Covering(scopes, listeners[n - 1])| > 1 then [AmbiguousListener(listeners[n - 1])] else []
  }

  function CheckProblems(listeners: seq<Ip>, scopes: seq<Scope>): seq<ConfigProblem> {
    if listeners == [] && scopes != [] then [NoListeners]
    else
      ScopeProblems(scopes, |scopes|)
      + UnheardProblems(scopes, listeners, |scopes|)
      + AmbiguityProblems(scopes, listeners, |listeners|)
  }

  method Check(listeners: seq<Ip>, scopes: seq<Scope>) returns (problems: seq<ConfigProblem>)
    ensures problems == CheckProblems(listeners, scopes)
  {
    if listeners == [] && scopes != [] {
      return [NoListeners];
    }
    var bad := CheckScopes(scopes);
    var unheard := CheckHeard(scopes, listeners);
    var ambiguous := CheckAmbiguous(scopes, listeners);
    problems := bad + unheard + ambiguous;
  }

  method CheckScopes(scopes: seq<Scope>) returns (problems: seq<ConfigProblem>)
    ensures problems == ScopeProblems(scopes, |scopes|)
  {
    hide ValidateErrors;
    problems := [];
    for i := 0 to |scopes|
      invariant problems == ScopeProblems(scopes, i)
    {
      var errs := Validate(scopes[i]);
      ghost var before := problems;
      for j := 0 to |errs|
        invariant problems == before + Tagged(scopes[i].id, errs, j)
      {
        problems := problems + [BadScope(scopes[i].id, errs[j])];
      }
    }
  }

  method CheckHeard(scopes: seq<Scope>, listeners: seq<Ip>) returns (problems: seq<ConfigProblem>)
    ensures problems == UnheardProblems(scopes, listeners, |scopes|)
  {
    hide Listens;
    problems := [];
    for i := 0 to |scopes|
      invariant problems == UnheardProblems(scopes, listeners, i)
    {
      if scopes[i].viaRelay {
        continue;
      }
      if !Listens(scopes[i], listeners) {
        problems := problems + [ScopeWithoutListener(scopes[i].name)];
      }
    }
  }

  method CheckAmbiguous(scopes: seq<Scope>, listeners: seq<Ip>) returns (problems: seq<ConfigProblem>)
    ensures problems == AmbiguityProblems(scopes, listeners, |listeners|)
  {
    problems := [];
    for i := 0 to |listeners|
      invariant problems == AmbiguityProblems(scopes, listeners, i)
    {
      var hits := Covering(scopes, listeners[i]);
      if |hits| > 1 {
        problems := problems + [AmbiguousListener(listeners[i])];
      }
    }
  }

  // ----- What acceptance means -----

  /** No two scopes, at different positions, contain the address. */
  ghost predicate AtMostOneCovers(scopes: seq<Scope>, key: Ip) {
    forall i, j :: 0 <= i < j < |scopes| ==> !(scopes[i].Contains(key) && scopes[j].Contains(key))
  }

  ghost predicate Coherent(listeners: seq<Ip>, scopes: seq<Scope>) {
    && (listeners == [] ==> scopes == [])
    && (forall s :: s in scopes ==> WellFormed(s) && (s.viaRelay || Listens(s, listeners)))
    && (forall l :: l in listeners ==> AtMostOneCovers(scopes, l))
  }

  lemma {:induction false} CoveringAtMostOne(scopes: seq<Scope>, key: Ip)
    ensures |Covering(scopes, key)| <= 1 <==> AtMostOneCovers(scopes, key)
    ensures |Covering(scopes, key)| == 0 <==> forall i :: 0 <= i < |scopes| ==> !scopes[i].Contains(key)
  {
    if scopes == [] {
    } else {
      CoveringAtMostOne(scopes[1..], key);
      assert forall i :: 0 <= i < |scopes| - 1 ==> scopes[1..][i] == scopes[i + 1];
      assert forall i :: 1 <= i < |scopes| ==> scopes[i] == scopes[1..][i - 1];
    }
  }

  lemma {:induction false} ScopeProblemsStep(scopes: seq<Scope>, n: nat)
    requires 0 < n <= |scopes|
    ensures ScopeProblems(scopes, n) == [] <==>
      ScopeProblems(scopes, n - 1) == [] && ValidateErrors(scopes[n - 1]) == []
  {
    hide ValidateErrors, Tagged;
  }

  lemma {:induction false} NoScopeProblems(scopes: seq<Scope>)
    ensures ScopeProblems(scopes, 0) == []
  {
  }

  lemma {:induction false} ScopeProblemsRule(scopes: seq<Scope>, n: nat)
    requires n <= |scopes|
    ensures ScopeProblems(scopes, n) == [] <==> forall i :: 0 <= i < n ==> WellFormed(scopes[i])
    decreases n
  {
    hide *;
    if n == 0 {
      NoScopeProblems(scopes);
    } else {
      ScopeProblemsRule(scopes, n - 1);
      ScopeProblemsStep(scopes, n);
      ValidateIsExact(scopes[n - 1]);
    }
  }

  lemma {:induction false} UnheardStep(scopes: seq<Scope>, listeners: seq<Ip>, n: nat)
    requires n <= |scopes|
    ensures UnheardProblems(scopes, listeners, n) == [] <==>
      n == 0
      || (UnheardProblems(scopes, listeners, n - 1) == []
          && (scopes[n - 1].viaRelay || Listens(scopes[n - 1], listeners)))
  {
    hide Listens;
  }

  lemma {:induction false} UnheardRule(scopes: seq<Scope>, listeners: seq<Ip>, n: nat)
    requires n <= |scopes|
    ensures UnheardProblems(scopes, listeners, n) == [] <==>
      forall i :: 0 <= i < n ==> scopes[i].viaRelay || Listens(scopes[i], listeners)
    decreases n
  {
    hide *;
    UnheardStep(scopes, listeners, n);
    if n == 0 {
    } else {
      UnheardRule(scopes, listeners, n - 1);
    }
  }

  lemma {:induction false} AmbiguityStep(scopes: seq<Scope>, listeners: seq<Ip>, n: nat)
    requires 0 < n <= |listeners|
    ensures AmbiguityProblems(scopes, listeners, n) == [] <==>
      AmbiguityProblems(scopes, listeners, n - 1) == [] && |Covering(scopes, listeners[n - 1])| <= 1
  {
    hide Covering;
  }

  lemma {:induction false} AmbiguityRule(scopes: seq<Scope>, listeners: seq<Ip>, n: nat)
    requires n <= |listeners|
    ensures AmbiguityProblems(scopes, listeners, n) == [] <==>
      forall i :: 0 <= i < n ==> AtMostOneCovers(scopes, listeners[i])
  {
    hide Covering, AtMostOneCovers;
    if n == 0 {
    } else {
      hide AmbiguityProblems;
      AmbiguityRule(scopes, listeners, n - 1);
      AmbiguityStep(scopes, listeners, n);
      CoveringAtMostOne(scopes, listeners[n - 1]);
    }
  }

  /** A configuration is accepted exactly when it is coherent. */
  lemma {:induction false} CheckIsExact(listeners: seq<Ip>, scopes: seq<Scope>)
    ensures CheckProblems(listeners, scopes) == [] <==> Coherent(listeners, scopes)
  {
    hide WellFormed, AtMostOneCovers, Listens, ScopeProblems, UnheardProblems, AmbiguityProblems;
    ScopeProblemsRule(scopes, |scopes|);
    UnheardRule(scopes, listeners, |scopes|);
    AmbiguityRule(scopes, listeners, |listeners|);
  }

  // ----- Selection does not depend on order -----

  lemma {:induction false} CoveringCounts(scopes: seq<Scope>, key: Ip, s: Scope)
    ensures multiset(Covering(scopes, key))[s] == if s.Contains(key) then multiset(scopes)[s] else 0
  {
    if scopes == [] {
    } else {
      CoveringCounts(scopes[1..], key, s);
      assert scopes == [scopes[0]] + scopes[1..];
    }
  }

  lemma {:induction false} ShortSeqsEqual(a: seq<Scope>, b: seq<Scope>)
    requires multiset(a) == multiset(b) && |a| <= 1
    ensures a == b
  {
    assert |multiset(a)| == |a| && |multiset(b)| == |b|;
    if a != [] {
      assert a[0] in multiset(b);
      assert a[0] in b;
    }
  }

  /** In an accepted configuration a direct request at any listener is served by the same
      scope, or dropped for the same reason, whatever order the scopes are listed in. */
  lemma {:induction false} SelectionIgnoresOrder(
      listeners: seq<Ip>, scopes: seq<Scope>, shuffled: seq<Scope>, msg: Message, ctx: Ctx)
    requires CheckProblems(listeners, scopes) == [] && multiset(shuffled) == multiset(scopes)
    requires msg.giaddr == UNSPECIFIED && msg.ciaddr == UNSPECIFIED && ctx.serverIp in listeners
    ensures SelectScope(shuffled, msg, ctx) == SelectScope(scopes, msg, ctx)
  {
    hide CheckProblems, WellFormed, Covering, Scope.Contains;
    CheckIsExact(listeners, scopes);
    var key := ctx.serverIp;
    CoveringAtMostOne(scopes, key);
    forall s: Scope
      ensures multiset(Covering(scopes, key))[s] == multiset(Covering(shuffled, key))[s]
    {
      CoveringCounts(scopes, key, s);
      CoveringCounts(shuffled, key, s);
    }
    ShortSeqsEqual(Covering(scopes, key), Covering(shuffled, key));
  }

  /** The scope is enabled and recognises the request's address as its own. */
  predicate Answers(s: Scope, msg: Message, ctx: Ctx) {
    s.enabled && s.Contains(ScopeKey(msg, ctx))
  }

  /** Some scope that answers is selected, if there is one; else the request is dropped,
      for a reason that depends on the scopes containing the address. */
  lemma {:induction false} SelectedAnswers(scopes: seq<Scope>, msg: Message, ctx: Ctx)
    ensures match SelectScope(scopes, msg, ctx)
      case Success(s) => s in scopes && Answers(s, msg, ctx)
      case Failure(why) =>
        && (forall s :: s in scopes ==> !Answers(s, msg, ctx))
        && why == if exists s :: s in scopes && s.Contains(ScopeKey(msg, ctx)) then ScopeDisabled else NoMatchingScope
  {
    hide Scope.Contains, Covering, FirstEnabled;
    var key := ScopeKey(msg, ctx);
    var matched := Covering(scopes, key);
    FirstEnabledIsMember(matched);
    forall s
      ensures s in matched <==> s in scopes && s.Contains(key)
    {
      CoveringMembers(scopes, key, s);
    }
    assert matched != [] ==> matched[0] in matched;
  }

  /** A scope that answers is selected when it is listed first. */
  lemma {:induction false} MoveToFront(scopes: seq<Scope>, s: Scope, msg: Message, ctx: Ctx) returns (moved: seq<Scope>)
    requires s in scopes && Answers(s, msg, ctx)
    ensures multiset(moved) == multiset(scopes)
    ensures SelectScope(moved, msg, ctx) == Success(s)
  {
    hide Scope.Contains;
    var i :| 0 <= i < |scopes| && scopes[i] == s;
    moved := [s] + (scopes[..i] + scopes[i + 1..]);
    assert scopes == scopes[..i] + [s] + scopes[i + 1..];
    assert Covering(moved, ScopeKey(msg, ctx))[0] == s;
  }

  /** For any scopes, checked or not, the order they are listed in decides about a request
      exactly when two different ones answer it. */
  lemma {:induction false} OrderMattersIff(scopes: seq<Scope>, msg: Message, ctx: Ctx)
    ensures (exists shuffled :: multiset(shuffled) == multiset(scopes)
               && SelectScope(shuffled, msg, ctx) != SelectScope(scopes, msg, ctx)) <==>
      exists a, b :: a in scopes && b in scopes && a != b && Answers(a, msg, ctx) && Answers(b, msg, ctx)
  {
    hide SelectScope, Answers, Scope.Contains;
    if a, b :| a in scopes && b in scopes && a != b && Answers(a, msg, ctx) && Answers(b, msg, ctx) {
      var first := MoveToFront(scopes, a, msg, ctx);
      var second := MoveToFront(scopes, b, msg, ctx);
    } else {
      SelectedAnswers(scopes, msg, ctx);
      forall shuffled: seq<Scope> | multiset(shuffled) == multiset(scopes)
        ensures SelectScope(shuffled, msg, ctx) == SelectScope(scopes, msg, ctx)
      {
        SelectedAnswers(shuffled, msg, ctx);
        assert forall s :: s in shuffled <==> s in multiset(shuffled);
        assert forall s :: s in scopes <==> s in multiset(scopes);
      }
    }
  }
}
