/** The namespace service of the business layer: it decides once whether the
    cluster is OpenShift, fetches either the projects or the namespaces the
    client can see, and drops every namespace whose name matches one of the
    configured exclude patterns. */
module Namespaces {
  import opened Common

  /** A namespace (or an OpenShift project cast to one). Only the name takes
      part in the exclusion; the other fields of the Kiali model are carried
      along unchanged and are not modelled. */
  datatype Namespace = Namespace(name: string)

  /** What one list call of the Kubernetes client answers. */
  datatype FetchResult = Fetched(items: seq<Namespace>) | FetchFailed(err: string)

  /** A non-nil Kubernetes client, given by the answers it returns:
      whether the cluster is OpenShift, the project list and the namespace list. */
  datatype Client = Client(openShift: bool, projects: FetchResult, namespaces: FetchResult)

  /** The service: the client (None models a nil interface) and the
      OpenShift decision taken at construction. */
  datatype NamespaceService = NamespaceService(k8s: Option<Client>, hasProjects: bool)

  /** What `regexp.MatchString(pattern, name)` returns: whether the name
      matched, or an error when the pattern does not compile. */
  datatype MatchResult = Match(matched: bool) | CompileError(message: string)

  /** Regular-expression matching is left uninterpreted: any function from
      (pattern, name) to a match result. */
  type Matcher = (string, string) -> MatchResult

  /** What a call to GetNamespaces produces: the filtered list with a nil
      error, the error of a failed namespace fetch (with a nil list), or the
      runtime panic of calling a method on a nil client. */
  datatype Outcome = Listed(namespaces: seq<Namespace>) | Failed(err: string) | NilClientPanic

  /** The boolean the code keeps from `match, _ := regexp.MatchString(...)`:
      the error is discarded, and the regexp package reports `false` along
      with a compile error. A match is reported exactly when the pattern
      compiled and matched. */
  function Matched(r: MatchResult): (b: bool)
    ensures r.CompileError? ==> !b
    ensures b <==> r == Match(true)
  {
    match r
    case Match(b) => b
    case CompileError(_) => false
  }

  /** Whether `pattern` excludes the namespace called `name`. */
  predicate Excludes(matches: Matcher, pattern: string, name: string)
  {
    Matched(matches(pattern, name))
  }

  /** Whether some pattern of `exclude` excludes `name`. */
  predicate IsExcluded(exclude: seq<string>, matches: Matcher, name: string)
  {
    exists k :: 0 <= k < |exclude| && Excludes(matches, exclude[k], name)
  }

  /** Number of occurrences of `n` in `s`. */
  function Count(s: seq<Namespace>, n: Namespace): nat
  {
    multiset(s)[n]
  }

  /** NewNamespaceService: the service uses projects exactly when the client
      is non-nil and reports an OpenShift cluster. The last ensures is a
      corollary of the second, stated for callers that only know the client
      is nil. */
  function NewNamespaceService(k8s: Option<Client>): (svc: NamespaceService)
    ensures svc.k8s == k8s
    ensures svc.hasProjects <==> k8s.Some? && k8s.value.openShift
    ensures k8s.None? ==> !svc.hasProjects
  {
    NamespaceService(k8s, k8s.Some? && k8s.value.openShift)
  }

  /** The exclude loop of GetNamespaces as a reference definition: keep, in
      order, every namespace that no pattern excludes. */
  function Keep(namespaces: seq<Namespace>, exclude: seq<string>, matches: Matcher): (kept: seq<Namespace>)
    ensures |kept| <= |namespaces|
    ensures IsSubsequence(kept, namespaces)
    ensures forall i :: 0 <= i < |kept| ==> !IsExcluded(exclude, matches, kept[i].name)
    decreases |namespaces|
  {
    if |namespaces| == 0 then []
    else
      var rest := Keep(namespaces[1..], exclude, matches);
      if IsExcluded(exclude, matches, namespaces[0].name) then rest
      else
        var kept := [namespaces[0]] + rest;
        assert kept[1..] == rest;
        kept
  }

  /** Soundness and completeness together, counting duplicates: an excluded
      namespace never occurs in the result, and every other namespace occurs
      in it exactly as often as it was fetched. */
  lemma {:induction false} KeepCount(namespaces: seq<Namespace>, exclude: seq<string>, matches: Matcher, n: Namespace)
    ensures Count(Keep(namespaces, exclude, matches), n)
            == if IsExcluded(exclude, matches, n.name) then 0 else Count(namespaces, n)
    decreases |namespaces|
  {
    if |namespaces| > 0 {
      KeepCount(namespaces[1..], exclude, matches, n);
      assert namespaces == [namespaces[0]] + namespaces[1..];
      var rest := Keep(namespaces[1..], exclude, matches);
      if !IsExcluded(exclude, matches, namespaces[0].name) {
        assert Keep(namespaces, exclude, matches) == [namespaces[0]] + rest;
      }
    }
  }

  /** Completeness in positional form: every fetched namespace that no pattern
      excludes is in the result. */
  lemma KeepComplete(namespaces: seq<Namespace>, exclude: seq<string>, matches: Matcher, i: nat)
    requires i < |namespaces|
    requires !IsExcluded(exclude, matches, namespaces[i].name)
    ensures namespaces[i] in Keep(namespaces, exclude, matches)
  {
    var n := namespaces[i];
    KeepCount(namespaces, exclude, matches, n);
    assert n in multiset(namespaces);
    assert n in multiset(Keep(namespaces, exclude, matches));
  }

  /** Filtering a concatenation filters each part. */
  lemma {:induction false} KeepAppend(a: seq<Namespace>, b: seq<Namespace>, exclude: seq<string>, matches: Matcher)
    ensures Keep(a + b, exclude, matches) == Keep(a, exclude, matches) + Keep(b, exclude, matches)
    decreases |a|
  {
    if |a| == 0 {
      assert a + b == b;
    } else {
      assert (a + b)[0] == a[0];
      assert (a + b)[1..] == a[1..] + b;
      KeepAppend(a[1..], b, exclude, matches);
    }
  }

  /** With no exclude patterns, the result is the fetched list itself. */
  lemma {:induction false} KeepNoPatterns(namespaces: seq<Namespace>, matches: Matcher)
    ensures Keep(namespaces, [], matches) == namespaces
    decreases |namespaces|
  {
    if |namespaces| > 0 {
      KeepNoPatterns(namespaces[1..], matches);
      assert namespaces == [namespaces[0]] + namespaces[1..];
    }
  }

  /** A pattern that excludes none of the fetched names can be removed from
      the exclude list without changing the result. */
  lemma {:induction false} KeepIgnoresNonExcluding(namespaces: seq<Namespace>, before: seq<string>, p: string,
                                                   after: seq<string>, matches: Matcher)
    requires forall i :: 0 <= i < |namespaces| ==> !Excludes(matches, p, namespaces[i].name)
    ensures Keep(namespaces, before + [p] + after, matches) == Keep(namespaces, before + after, matches)
    decreases |namespaces|
  {
    if |namespaces| > 0 {
      var name := namespaces[0].name;
      var withP := before + [p] + after;
      var withoutP := before + after;
      if IsExcluded(withP, matches, name) {
        var k :| 0 <= k < |withP| && Excludes(matches, withP[k], name);
        if k < |before| {
          assert withoutP[k] == withP[k];
        } else if k > |before| {
          assert withoutP[k - 1] == withP[k];
        }
      }
      if IsExcluded(withoutP, matches, name) {
        var k :| 0 <= k < |withoutP| && Excludes(matches, withoutP[k], name);
        if k < |before| {
          assert withP[k] == withoutP[k];
        } else {
          assert withP[k + 1] == withoutP[k];
        }
      }
      KeepIgnoresNonExcluding(namespaces[1..], before, p, after, matches);
    }
  }

  /** A pattern that fails to compile counts as "no match": the discarded
      error means it never excludes anything. */
  lemma BadPatternIgnored(namespaces: seq<Namespace>, before: seq<string>, p: string,
                          after: seq<string>, matches: Matcher)
    requires forall i :: 0 <= i < |namespaces| ==> matches(p, namespaces[i].name).CompileError?
    ensures Keep(namespaces, before + [p] + after, matches) == Keep(namespaces, before + after, matches)
  {
    KeepIgnoresNonExcluding(namespaces, before, p, after, matches);
  }

  /** Filtering twice with the same patterns is filtering once. */
  lemma {:induction false} KeepIdempotent(namespaces: seq<Namespace>, exclude: seq<string>, matches: Matcher)
    ensures Keep(Keep(namespaces, exclude, matches), exclude, matches) == Keep(namespaces, exclude, matches)
    decreases |namespaces|
  {
    if |namespaces| > 0 {
      KeepIdempotent(namespaces[1..], exclude, matches);
      var rest := Keep(namespaces[1..], exclude, matches);
      if !IsExcluded(exclude, matches, namespaces[0].name) {
        var kept := [namespaces[0]] + rest;
        assert kept[1..] == rest;
      }
    }
  }

  /** Appending one namespace to the input appends it to the result exactly
      when no pattern excludes it. */
  lemma KeepSnoc(prefix: seq<Namespace>, n: Namespace, exclude: seq<string>, matches: Matcher)
    ensures Keep(prefix + [n], exclude, matches)
            == Keep(prefix, exclude, matches) + (if IsExcluded(exclude, matches, n.name) then [] else [n])
  {
    KeepAppend(prefix, [n], exclude, matches);
    assert [n][1..] == [];
  }

  /** The exclude loop as the code writes it: for each namespace, try each
      pattern in turn and skip to the next namespace on the first match;
      append the namespace when no pattern matched. */
  method FilterNamespaces(namespaces: seq<Namespace>, exclude: seq<string>, matches: Matcher)
    returns (result: seq<Namespace>)
    ensures result == Keep(namespaces, exclude, matches)
  {
    result := [];
    label NamespacesLoop:
    for i := 0 to |namespaces|
      invariant result == Keep(namespaces[..i], exclude, matches)
    {
      var namespace := namespaces[i];
      assert namespaces[..i + 1] == namespaces[..i] + [namespace];
      KeepSnoc(namespaces[..i], namespace, exclude, matches);
      for j := 0 to |exclude|
        invariant forall k :: 0 <= k < j ==> !Excludes(matches, exclude[k], namespace.name)
      {
        if Matched(matches(exclude[j], namespace.name)) {
          assert Excludes(matches, exclude[j], namespace.name);
          assert IsExcluded(exclude, matches, namespace.name);
          continue NamespacesLoop;
        }
      }
      assert !IsExcluded(exclude, matches, namespace.name);
      result := result + [namespace];
    }
    assert namespaces[..|namespaces|] == namespaces;
  }

  /** The list GetNamespaces filters: the projects on OpenShift (empty when
      that fetch failed), the namespaces otherwise. */
  function SourceList(c: Client, hasProjects: bool): (r: seq<Namespace>)
    ensures hasProjects && c.projects.Fetched? ==> r == c.projects.items
    ensures hasProjects && c.projects.FetchFailed? ==> r == []
    ensures !hasProjects && c.namespaces.Fetched? ==> r == c.namespaces.items
  {
    if hasProjects then (if c.projects.Fetched? then c.projects.items else [])
    else if c.namespaces.Fetched? then c.namespaces.items else []
  }

  /** GetNamespaces: source selection, the two error policies and the
      exclude-pattern filter. */
  function GetNamespaces(svc: NamespaceService, exclude: seq<string>, matches: Matcher): (r: Outcome)
    ensures r.NilClientPanic? <==> svc.k8s.None?
    ensures r.Failed? <==> svc.k8s.Some? && !svc.hasProjects && svc.k8s.value.namespaces.FetchFailed?
    ensures r.Failed? ==> r.err == svc.k8s.value.namespaces.err
    ensures svc.k8s.Some? && svc.hasProjects && svc.k8s.value.projects.FetchFailed? ==> r == Listed([])
    ensures r.Listed? ==> IsSubsequence(r.namespaces, SourceList(svc.k8s.value, svc.hasProjects))
    ensures r.Listed? ==> forall i :: 0 <= i < |r.namespaces| ==> !IsExcluded(exclude, matches, r.namespaces[i].name)
    ensures r.Listed? ==> forall i :: 0 <= i < |SourceList(svc.k8s.value, svc.hasProjects)| &&
                                     !IsExcluded(exclude, matches, SourceList(svc.k8s.value, svc.hasProjects)[i].name)
                                     ==> SourceList(svc.k8s.value, svc.hasProjects)[i] in r.namespaces
  {
    var fetched: Outcome :=
      if svc.hasProjects then
        match svc.k8s
        case None => NilClientPanic
        case Some(c) => (if c.projects.Fetched? then Listed(c.projects.items) else Listed([]))
      else
        match svc.k8s
        case None => NilClientPanic
        case Some(c) => (if c.namespaces.FetchFailed? then Failed(c.namespaces.err) else Listed(c.namespaces.items));
    if fetched.Listed? then
      var result := Keep(fetched.namespaces, exclude, matches);
      forall i | 0 <= i < |fetched.namespaces| && !IsExcluded(exclude, matches, fetched.namespaces[i].name)
        ensures fetched.namespaces[i] in result
      {
        KeepComplete(fetched.namespaces, exclude, matches, i);
      }
      Listed(result)
    else fetched
  }

  /** On OpenShift the namespace list is never consulted, and off OpenShift
      the project list is never consulted. */
  lemma SourceSelection(c: Client, other: FetchResult, exclude: seq<string>, matches: Matcher)
    ensures c.openShift ==>
      GetNamespaces(NewNamespaceService(Some(c.(namespaces := other))), exclude, matches)
      == GetNamespaces(NewNamespaceService(Some(c)), exclude, matches)
    ensures !c.openShift ==>
      GetNamespaces(NewNamespaceService(Some(c.(projects := other))), exclude, matches)
      == GetNamespaces(NewNamespaceService(Some(c)), exclude, matches)
  {
  }

  /** Non-OpenShift error policy: a failing namespace fetch is returned as the
      error, with no list and no filtering. */
  lemma NamespaceFetchErrorPropagates(c: Client, exclude: seq<string>, matches: Matcher)
    requires !c.openShift && c.namespaces.FetchFailed?
    ensures GetNamespaces(NewNamespaceService(Some(c)), exclude, matches) == Failed(c.namespaces.err)
  {
  }

  /** OpenShift error policy: a failing project fetch is swallowed and the
      call answers an empty list with no error. */
  lemma ProjectFetchErrorSwallowed(c: Client, exclude: seq<string>, matches: Matcher)
    requires c.openShift && c.projects.FetchFailed?
    ensures GetNamespaces(NewNamespaceService(Some(c)), exclude, matches) == Listed([])
  {
  }

  /** A successful fetch is filtered: the call answers exactly the fetched
      list with the excluded namespaces removed. */
  lemma SuccessfulFetchFiltered(c: Client, exclude: seq<string>, matches: Matcher)
    requires if c.openShift then c.projects.Fetched? else c.namespaces.Fetched?
    ensures GetNamespaces(NewNamespaceService(Some(c)), exclude, matches)
            == Listed(Keep(if c.openShift then c.projects.items else c.namespaces.items, exclude, matches))
  {
  }
}
