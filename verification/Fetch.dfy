/**
 Which resources a selector fetches: getNamespaces, collectFromNamespaces and
 fetchResources, against the simple reading of the selector.

 The cluster is a list of resources and a list of namespaces. Parsing of label
 selectors, discovery and the failures of list calls are parameters.
 */
module Fetch {
  import opened Prelude
  import opened Resources
  import opened Slices

  datatype Namespace = Namespace(name: string, deleting: bool, labels: Labels)

  /** The outcome of the REST mapping of the selector's kind. */
  datatype Mapping = Mapped | NoMatch | Broken(e: Error)

  /** What the API server answers. listFault(ns) is the failure of a list call, "" for the cluster-wide one. */
  datatype Cluster = Cluster(
    mapping: Mapping,
    resources: seq<Resource>,
    namespaces: Result<seq<Namespace>, Error>,
    parse: string -> Result<Labels -> bool, Error>,
    listFault: string -> Option<Error>)

  /** A ResourceSelector; matches is what its label filters accept. */
  datatype Selector = Selector(namespace: string, namespaceSelector: string, matches: Labels -> bool)

  // ----- getNamespaces -----

  /** The names of the namespaces that are not being deleted and match, in list order. */
  function MatchingNames(nss: seq<Namespace>, selects: Labels -> bool): (names: seq<string>)
    ensures forall n :: n in names <==> exists ns :: ns in nss && !ns.deleting && selects(ns.labels) && ns.name == n
  {
    if nss == [] then []
    else
      var rest := MatchingNames(nss[1..], selects);
      assert nss == [nss[0]] + nss[1..];
      if !nss[0].deleting && selects(nss[0].labels) then [nss[0].name] + rest else rest
  }

  lemma {:induction false} MatchingNamesSnoc(nss: seq<Namespace>, ns: Namespace, selects: Labels -> bool)
    ensures MatchingNames(nss + [ns], selects) ==
            MatchingNames(nss, selects) + (if !ns.deleting && selects(ns.labels) then [ns.name] else [])
  {
    if nss != [] {
      MatchingNamesSnoc(nss[1..], ns, selects);
      assert (nss + [ns])[1..] == nss[1..] + [ns];
    }
  }

  /** They keep the order of the list. */
  lemma {:induction false} MatchingNamesInOrder(nss: seq<Namespace>, selects: Labels -> bool, i: nat, j: nat)
    requires i < j < |nss| && DistinctNames(nss)
    requires !nss[i].deleting && selects(nss[i].labels) && !nss[j].deleting && selects(nss[j].labels)
    ensures nss[i].name in MatchingNames(nss, selects) && nss[j].name in MatchingNames(nss, selects)
    ensures IndexOf(MatchingNames(nss, selects), nss[i].name) < IndexOf(MatchingNames(nss, selects), nss[j].name)
  {
    var names, rest := MatchingNames(nss, selects), MatchingNames(nss[1..], selects);
    assert nss[i] in nss && nss[j] in nss;
    if i > 0 {
      MatchingNamesInOrder(nss[1..], selects, i - 1, j - 1);
      if names != rest {
        IndexOfTail(names, nss[i].name);
        IndexOfTail(names, nss[j].name);
      }
    }
  }

  ghost predicate DistinctNames(nss: seq<Namespace>) {
    forall i, j :: 0 <= i < j < |nss| ==> nss[i].name != nss[j].name
  }

  lemma {:induction false} MatchingNamesDistinct(nss: seq<Namespace>, selects: Labels -> bool)
    requires DistinctNames(nss)
    ensures NoDuplicates(MatchingNames(nss, selects))
  {
    if nss != [] {
      var rest := MatchingNames(nss[1..], selects);
      MatchingNamesDistinct(nss[1..], selects);
      assert nss[0].name !in rest;
      assert multiset([nss[0].name] + rest) == multiset{nss[0].name} + multiset(rest);
    }
  }

  /** The namespaces a selector asks for, and the errors on the way. */
  function SelectedNamespaces(c: Cluster, s: Selector): Result<seq<string>, Error> {
    if s.namespaceSelector == "" then
      Ok(if s.namespace != "" then [s.namespace] else [])
    else
      match c.parse(s.namespaceSelector)
      case Err(e) => Err(e)
      case Ok(selects) =>
        match c.namespaces
        case Err(e) => Err(e)
        case Ok(nss) =>
          var names := MatchingNames(nss, selects);
          Ok(names + (if s.namespace != "" && s.namespace !in names then [s.namespace] else []))
  }

  method GetNamespaces(c: Cluster, s: Selector) returns (r: Result<seq<string>, Error>)
    ensures r == SelectedNamespaces(c, s)
  {
    var matching: seq<string> := [];
    var added: set<string> := {};
    if s.namespaceSelector != "" {
      var parsed := c.parse(s.namespaceSelector);
      if parsed.Err? {
        return Err(parsed.error);
      }
      if c.namespaces.Err? {
        return Err(c.namespaces.error);
      }
      var nss := c.namespaces.value;
      for i := 0 to |nss|
        invariant matching == MatchingNames(nss[..i], parsed.value)
        invariant forall n :: n in added <==> n in matching
      {
        var ns := nss[i];
        assert nss[..i + 1] == nss[..i] + [ns];
        MatchingNamesSnoc(nss[..i], ns, parsed.value);
        if ns.deleting {
          continue;
        }
        if parsed.value(ns.labels) {
          matching := matching + [ns.name];
          added := added + {ns.name};
        }
      }
      assert nss[..|nss|] == nss;
    }
    if s.namespace != "" && s.namespace !in added {
      assert matching == [] ==> matching + [s.namespace] == [s.namespace];
      return Ok(matching + [s.namespace]);
    }
    assert matching + [] == matching;
    return Ok(matching);
  }

  // ----- collectFromNamespaces -----

  /** One list call restricted to a namespace by a field selector. */
  function ListIn(c: Cluster, s: Selector, ns: string): Result<seq<Resource>, Error> {
    match c.listFault(ns)
    case Some(e) => Err(e)
    case None => Ok(Filter(c.resources, (r: Resource) => s.matches(r.labels) && r.ref.namespace == ns))
  }

  /** One cluster-wide list call. */
  function ListAll(c: Cluster, s: Selector): Result<seq<Resource>, Error> {
    match c.listFault("")
    case Some(e) => Err(e)
    case None => Ok(Filter(c.resources, (r: Resource) => s.matches(r.labels)))
  }

  /** The lists of the namespaces one after the other, up to the first failure. */
  function CollectAll(c: Cluster, s: Selector, nss: seq<string>): Result<seq<Resource>, Error> {
    if nss == [] then Ok([])
    else
      match CollectAll(c, s, nss[..|nss| - 1])
      case Err(e) => Err(e)
      case Ok(front) =>
        match ListIn(c, s, nss[|nss| - 1])
        case Err(e) => Err(e)
        case Ok(last) => Ok(front + last)
  }

  lemma {:induction false} CollectStopsAtFault(c: Cluster, s: Selector, nss: seq<string>, i: nat)
    requires i <= |nss| && CollectAll(c, s, nss[..i]).Err?
    ensures CollectAll(c, s, nss) == CollectAll(c, s, nss[..i])
    decreases |nss|
  {
    if i < |nss| {
      assert nss[..|nss| - 1][..i] == nss[..i];
      CollectStopsAtFault(c, s, nss[..|nss| - 1], i);
    } else {
      assert nss[..i] == nss;
    }
  }

  method CollectFromNamespaces(c: Cluster, s: Selector, nss: seq<string>) returns (r: Result<seq<Resource>, Error>)
    ensures r == CollectAll(c, s, nss)
  {
    var result: seq<Resource> := [];
    for i := 0 to |nss|
      invariant CollectAll(c, s, nss[..i]) == Ok(result)
    {
      assert nss[..i + 1][..i] == nss[..i];
      var tmp := ListIn(c, s, nss[i]);
      if tmp.Err? {
        CollectStopsAtFault(c, s, nss, i + 1);
        return Err(tmp.error);
      }
      result := result + tmp.value;
    }
    assert nss[..|nss|] == nss;
    return Ok(result);
  }

  /** What fetchResources returns. */
  function Fetched(c: Cluster, s: Selector): Result<seq<Resource>, Error> {
    match c.mapping
    case Broken(e) => Err(e)
    case NoMatch => Ok([])
    case Mapped =>
      match SelectedNamespaces(c, s)
      case Err(e) => Err(e)
      case Ok(nss) => if nss != [] then CollectAll(c, s, nss) else ListAll(c, s)
  }

  /**
   A kind that the cluster does not know has no resources. Whatever is fetched is in the
   cluster, matches the label filters, and is of a kind that is mapped.
   */
  lemma {:induction false} FetchIsSound(c: Cluster, s: Selector)
    ensures c.mapping.NoMatch? ==> Fetched(c, s) == Ok([])
    ensures Fetched(c, s).Ok? ==> forall r :: r in Fetched(c, s).value ==>
              c.mapping.Mapped? && r in c.resources && s.matches(r.labels)
  {
    if c.mapping.Mapped? && SelectedNamespaces(c, s).Ok? {
      CollectIsSound(c, s, SelectedNamespaces(c, s).value);
    }
  }

  lemma {:induction false} CollectIsSound(c: Cluster, s: Selector, nss: seq<string>)
    ensures CollectAll(c, s, nss).Ok? ==> forall r :: r in CollectAll(c, s, nss).value ==>
              r in c.resources && s.matches(r.labels) && r.ref.namespace in nss
  {
    if nss != [] {
      CollectIsSound(c, s, nss[..|nss| - 1]);
    }
  }

  method FetchResources(c: Cluster, s: Selector) returns (r: Result<seq<Resource>, Error>)
    ensures r == Fetched(c, s)
    ensures c.mapping.NoMatch? ==> r == Ok([])
    ensures r.Ok? ==> forall x :: x in r.value ==> c.mapping.Mapped? && x in c.resources && s.matches(x.labels)
  {
    FetchIsSound(c, s);
    match c.mapping {
      case Broken(e) => return Err(e);
      case NoMatch => return Ok([]);
      case Mapped =>
    }
    var nss := GetNamespaces(c, s);
    if nss.Err? {
      return Err(nss.error);
    }
    if |nss.value| > 0 {
      r := CollectFromNamespaces(c, s, nss.value);
    } else {
      r := ListAll(c, s);
    }
  }

  // ----- Against the simple reading -----

  /** Collecting fails exactly when the list call of one of the namespaces does. */
  lemma {:induction false} CollectFailsIff(c: Cluster, s: Selector, nss: seq<string>)
    ensures CollectAll(c, s, nss).Ok? <==> forall n :: n in nss ==> c.listFault(n) == None
  {
    if nss != [] {
      var front := nss[..|nss| - 1];
      CollectFailsIff(c, s, front);
      assert nss == front + [nss[|nss| - 1]];
    }
  }

  /**
   A fetch fails exactly when the mapping breaks, the namespaces that a NamespaceSelector
   needs cannot be determined, or one of the list calls it makes fails.
   */
  lemma {:induction false} FetchFailsIff(c: Cluster, s: Selector)
    ensures Fetched(c, s).Err? <==>
            || c.mapping.Broken?
            || (c.mapping.Mapped? && s.namespaceSelector != "" &&
                (c.parse(s.namespaceSelector).Err? || c.namespaces.Err?))
            || (c.mapping.Mapped? && SelectedNamespaces(c, s).Ok? &&
                if SelectedNamespaces(c, s).value == [] then c.listFault("").Some?
                else exists n :: n in SelectedNamespaces(c, s).value && c.listFault(n).Some?)
  {
    if SelectedNamespaces(c, s).Ok? {
      CollectFailsIff(c, s, SelectedNamespaces(c, s).value);
    }
  }

  lemma {:induction false} ListInCounts(c: Cluster, s: Selector, n: string, r: Resource)
    requires ListIn(c, s, n).Ok?
    ensures multiset(ListIn(c, s, n).value)[r] ==
            if s.matches(r.labels) && r.ref.namespace == n then multiset(c.resources)[r] else 0
  {
    FilterCount(c.resources, (r: Resource) => s.matches(r.labels) && r.ref.namespace == n, r);
  }

  /** Over distinct namespaces, every matching resource of theirs is collected exactly once. */
  lemma {:induction false} CollectCounts(c: Cluster, s: Selector, nss: seq<string>, r: Resource)
    requires CollectAll(c, s, nss).Ok? && NoDuplicates(nss)
    ensures multiset(CollectAll(c, s, nss).value)[r] ==
            if s.matches(r.labels) && r.ref.namespace in nss then multiset(c.resources)[r] else 0
  {
    if nss != [] {
      var front, n := nss[..|nss| - 1], nss[|nss| - 1];
      assert nss == front + [n];
      assert forall x :: multiset(nss)[x] == multiset(front)[x] + (if x == n then 1 else 0);
      CollectCounts(c, s, front, r);
      ListInCounts(c, s, n, r);
      hide ListIn;
      assert r.ref.namespace in front ==> multiset(front)[r.ref.namespace] > 0;
      assert CollectAll(c, s, nss).value == CollectAll(c, s, front).value + ListIn(c, s, n).value;
    }
  }

  /** The namespaces a selector names: its Namespace, and the live ones its NamespaceSelector matches. */
  predicate NamesNamespace(c: Cluster, s: Selector, n: string) {
    || (s.namespace != "" && n == s.namespace)
    || (s.namespaceSelector != "" && c.parse(s.namespaceSelector).Ok? && c.namespaces.Ok? &&
        exists ns :: ns in c.namespaces.value && !ns.deleting &&
                     c.parse(s.namespaceSelector).value(ns.labels) && ns.name == n)
  }

  /** What the documentation of the two fields asks for: with neither set, every namespace. */
  predicate Wanted(c: Cluster, s: Selector, r: Resource) {
    s.matches(r.labels) &&
    ((s.namespace == "" && s.namespaceSelector == "") || NamesNamespace(c, s, r.ref.namespace))
  }

  /** Namespace names are unique in a cluster. */
  ghost predicate ValidCluster(c: Cluster) {
    c.namespaces.Ok? ==> DistinctNames(c.namespaces.value)
  }

  lemma {:induction false} SelectedAreNamed(c: Cluster, s: Selector)
    requires ValidCluster(c) && SelectedNamespaces(c, s).Ok?
    ensures var nss := SelectedNamespaces(c, s).value;
            NoDuplicates(nss) && forall n :: n in nss <==> NamesNamespace(c, s, n)
  {
    if s.namespaceSelector != "" {
      var names := MatchingNames(c.namespaces.value, c.parse(s.namespaceSelector).value);
      MatchingNamesDistinct(c.namespaces.value, c.parse(s.namespaceSelector).value);
      assert forall x :: x in names <==> x in multiset(names);
    }
  }

  /** The selector asks for namespaces by label only, and no live one matches. */
  ghost predicate FallsBack(c: Cluster, s: Selector) {
    s.namespace == "" && s.namespaceSelector != "" && forall n :: !NamesNamespace(c, s, n)
  }

  lemma {:induction false} WantedCounts(c: Cluster, s: Selector, r: Resource)
    ensures multiset(AllWanted(c, s))[r] == if Wanted(c, s, r) then multiset(c.resources)[r] else 0
  {
    FilterCount(c.resources, (r: Resource) => Wanted(c, s, r), r);
  }

  function AllWanted(c: Cluster, s: Selector): seq<Resource> {
    Filter(c.resources, (r: Resource) => Wanted(c, s, r))
  }

  lemma {:induction false} FetchedCounts(c: Cluster, s: Selector, r: Resource)
    requires c.mapping.Mapped? && ValidCluster(c) && Fetched(c, s).Ok?
    ensures multiset(Fetched(c, s).value)[r] ==
            if s.matches(r.labels) && ((forall n :: !NamesNamespace(c, s, n)) || NamesNamespace(c, s, r.ref.namespace))
            then multiset(c.resources)[r] else 0
  {
    hide SelectedNamespaces, NamesNamespace;
    var nss := SelectedNamespaces(c, s).value;
    SelectedAreNamed(c, s);
    if nss == [] {
      FilterCount(c.resources, (r: Resource) => s.matches(r.labels), r);
    } else {
      assert NamesNamespace(c, s, nss[0]);
      CollectCounts(c, s, nss, r);
    }
  }

  lemma {:induction false} NamesNothing(c: Cluster, s: Selector)
    ensures s.namespace == "" && s.namespaceSelector == "" ==> forall n :: !NamesNamespace(c, s, n)
    ensures s.namespace != "" ==> NamesNamespace(c, s, s.namespace)
  {
  }

  /** What was fetched and what was wanted differ in r exactly when the fetch fell back and r matches. */
  lemma {:induction false} DiffersIn(c: Cluster, s: Selector, r: Resource)
    requires c.mapping.Mapped? && ValidCluster(c) && Fetched(c, s).Ok?
    ensures multiset(Fetched(c, s).value)[r] != multiset(AllWanted(c, s))[r] <==>
            FallsBack(c, s) && r in c.resources && s.matches(r.labels)
  {
    WantedCounts(c, s, r);
    FetchedCounts(c, s, r);
    NamesNothing(c, s);
    hide Fetched, AllWanted, NamesNamespace;
    assert r in c.resources <==> multiset(c.resources)[r] > 0;
  }

  /**
   A fetch without error returns the wanted resources, none missed and none twice, exactly
   when its selector does not fall back, or nothing matches its label filters at all:
   a NamespaceSelector that matches no live namespace, without a Namespace, fetches
   from the whole cluster.
   */
  lemma {:induction false} FetchIsExactIff(c: Cluster, s: Selector)
    requires c.mapping.Mapped? && ValidCluster(c) && Fetched(c, s).Ok?
    ensures multiset(Fetched(c, s).value) == multiset(AllWanted(c, s)) <==>
            !FallsBack(c, s) || forall r :: r in c.resources ==> !s.matches(r.labels)
  {
    forall r
      ensures multiset(Fetched(c, s).value)[r] != multiset(AllWanted(c, s))[r] <==>
              FallsBack(c, s) && r in c.resources && s.matches(r.labels)
    {
      DiffersIn(c, s, r);
    }
    hide Fetched, AllWanted, FallsBack;
    if !FallsBack(c, s) || forall r :: r in c.resources ==> !s.matches(r.labels) {
      assert multiset(Fetched(c, s).value) == multiset(AllWanted(c, s));
    }
  }

  // ----- Why a fetch fails -----

  /** The error of a collection is the one of its first failing list call. */
  lemma {:induction false} CollectErrorIs(c: Cluster, s: Selector, nss: seq<string>) returns (i: nat)
    requires CollectAll(c, s, nss).Err?
    ensures i < |nss| && c.listFault(nss[i]) == Some(CollectAll(c, s, nss).error)
    ensures forall j :: 0 <= j < i ==> c.listFault(nss[j]) == None
  {
    var last := |nss| - 1;
    var front := nss[..last];
    if CollectAll(c, s, front).Err? {
      i := CollectErrorIs(c, s, front);
    } else {
      CollectFailsIff(c, s, front);
      assert forall j :: 0 <= j < last ==> nss[j] in front;
      i := last;
    }
  }

  /**
   The error of a fetch is that of the mapping, or else of parsing the NamespaceSelector,
   or else of listing the namespaces, or else of a list call: of one of the namespaces that
   the selector names, or the cluster-wide one if it names none.
   */
  lemma {:induction false} FetchErrorIs(c: Cluster, s: Selector)
    requires ValidCluster(c) && Fetched(c, s).Err?
    ensures var e := Fetched(c, s).error;
            if c.mapping.Broken? then e == c.mapping.e
            else if s.namespaceSelector != "" && c.parse(s.namespaceSelector).Err? then
              e == c.parse(s.namespaceSelector).error
            else if s.namespaceSelector != "" && c.namespaces.Err? then e == c.namespaces.error
            else if forall n :: !NamesNamespace(c, s, n) then c.listFault("") == Some(e)
            else exists n :: NamesNamespace(c, s, n) && c.listFault(n) == Some(e)
  {
    hide NamesNamespace, MatchingNames;
    if c.mapping.Mapped? && SelectedNamespaces(c, s).Ok? {
      ListErrorIs(c, s);
    }
  }

  lemma {:induction false} ListErrorIs(c: Cluster, s: Selector)
    requires ValidCluster(c) && Fetched(c, s).Err? && c.mapping.Mapped? && SelectedNamespaces(c, s).Ok?
    ensures var e := Fetched(c, s).error;
            if forall n :: !NamesNamespace(c, s, n) then c.listFault("") == Some(e)
            else exists n :: NamesNamespace(c, s, n) && c.listFault(n) == Some(e)
  {
    var nss := SelectedNamespaces(c, s).value;
    SelectedAreNamed(c, s);
    hide NamesNamespace, SelectedNamespaces, NoDuplicates;
    if nss != [] {
      assert NamesNamespace(c, s, nss[0]);
      var i := CollectErrorIs(c, s, nss);
      assert NamesNamespace(c, s, nss[i]);
    }
  }

  // ----- In which order -----

  function InNamespace(n: string): Resource -> bool {
    (r: Resource) => r.ref.namespace == n
  }

  function MatchingIn(s: Selector, n: string): Resource -> bool {
    (r: Resource) => s.matches(r.labels) && r.ref.namespace == n
  }

  /** A list call for n finds all of n that match, in the order of the cluster, and nothing of another namespace. */
  lemma {:induction false} ListInOrder(c: Cluster, s: Selector, n: string, m: string)
    requires ListIn(c, s, n).Ok?
    ensures Filter(ListIn(c, s, n).value, InNamespace(m)) ==
            if m == n then Filter(c.resources, MatchingIn(s, n)) else []
  {
    var found := ListIn(c, s, n).value;
    var matching := (r: Resource) => s.matches(r.labels) && r.ref.namespace == n;
    assert found == Filter(c.resources, matching);
    if m == n {
      FilterTwice(c.resources, matching, InNamespace(n), MatchingIn(s, n));
    } else {
      FilterNone(found, InNamespace(m));
    }
  }

  /** Over distinct namespaces a collection keeps, for each of them, the order of the cluster. */
  lemma {:induction false} CollectedPerNamespace(c: Cluster, s: Selector, nss: seq<string>, m: string)
    requires CollectAll(c, s, nss).Ok? && NoDuplicates(nss)
    ensures Filter(CollectAll(c, s, nss).value, InNamespace(m)) ==
            if m in nss then Filter(c.resources, MatchingIn(s, m)) else []
  {
    if nss != [] {
      var front, n := nss[..|nss| - 1], nss[|nss| - 1];
      LastIsNew(nss);
      CollectedPerNamespace(c, s, front, m);
      ListInOrder(c, s, n, m);
      hide ListIn, NoDuplicates, Filter;
      FilterConcat(CollectAll(c, s, front).value, ListIn(c, s, n).value, InNamespace(m));
    }
  }

  /** It goes through the namespaces in the order given. */
  lemma {:induction false} CollectedInOrder(c: Cluster, s: Selector, nss: seq<string>)
    requires CollectAll(c, s, nss).Ok? && NoDuplicates(nss)
    ensures var found := CollectAll(c, s, nss).value;
            forall i, j :: 0 <= i < j < |found| ==>
              IndexOf(nss, found[i].ref.namespace) <= IndexOf(nss, found[j].ref.namespace)
  {
    if nss != [] {
      var front, n := nss[..|nss| - 1], nss[|nss| - 1];
      LastIsNew(nss);
      CollectedInOrder(c, s, front);
      CollectIsSound(c, s, front);
      OnlyOf(c, s, n);
      hide ListIn, NoDuplicates, IndexOf;
      LaterLast(CollectAll(c, s, front).value, ListIn(c, s, n).value, front, n);
    }
  }

  lemma {:induction false} LastIsNew(nss: seq<string>)
    requires NoDuplicates(nss) && nss != []
    ensures var front, n := nss[..|nss| - 1], nss[|nss| - 1];
            nss == front + [n] && n !in front && NoDuplicates(front)
  {
    var front, n := nss[..|nss| - 1], nss[|nss| - 1];
    assert nss == front + [n];
    assert forall x :: multiset(nss)[x] == multiset(front)[x] + (if x == n then 1 else 0);
    assert n in front ==> multiset(front)[n] > 0;
  }

  lemma {:induction false} OnlyOf(c: Cluster, s: Selector, n: string)
    ensures ListIn(c, s, n).Ok? ==> forall r :: r in ListIn(c, s, n).value ==> r.ref.namespace == n
  {
  }

  lemma {:induction false} LaterLast(a: seq<Resource>, b: seq<Resource>, front: seq<string>, n: string)
    requires n !in front
    requires forall r :: r in a ==> r.ref.namespace in front
    requires forall r :: r in b ==> r.ref.namespace == n
    requires forall i, j :: 0 <= i < j < |a| ==>
               IndexOf(front, a[i].ref.namespace) <= IndexOf(front, a[j].ref.namespace)
    ensures forall i, j :: 0 <= i < j < |a + b| ==>
              IndexOf(front + [n], (a + b)[i].ref.namespace) <= IndexOf(front + [n], (a + b)[j].ref.namespace)
  {
    var nss := front + [n];
    IndexOfUnique(nss, n, |front|);
    forall i | 0 <= i < |a|
      ensures IndexOf(nss, a[i].ref.namespace) == IndexOf(front, a[i].ref.namespace) < |front|
    {
      assert a[i] in a;
      IndexOfAppend(front, [n], a[i].ref.namespace);
    }
    forall i | 0 <= i < |b|
      ensures IndexOf(nss, b[i].ref.namespace) == |front|
    {
      assert b[i] in b;
    }
  }

  /** The selected namespaces keep the order of the list, and the Namespace comes last unless it is among them. */
  lemma {:induction false} SelectedInOrder(c: Cluster, s: Selector, i: nat, j: nat)
    requires ValidCluster(c) && SelectedNamespaces(c, s).Ok? && s.namespaceSelector != ""
    requires var nss, selects := c.namespaces.value, c.parse(s.namespaceSelector).value;
             && i < j < |nss| && !nss[i].deleting && selects(nss[i].labels)
             && !nss[j].deleting && selects(nss[j].labels)
    ensures var nss, names := c.namespaces.value, SelectedNamespaces(c, s).value;
            && IndexOf(names, nss[i].name) < IndexOf(names, nss[j].name) < |names|
            && (s.namespace != "" && IndexOf(names, s.namespace) < IndexOf(names, nss[i].name) ==>
                  exists ns :: ns in nss && ns.name == s.namespace && !ns.deleting &&
                               c.parse(s.namespaceSelector).value(ns.labels))
  {
    var nss, selects := c.namespaces.value, c.parse(s.namespaceSelector).value;
    var matching := MatchingNames(nss, selects);
    MatchingNamesInOrder(nss, selects, i, j);
    var names := SelectedNamespaces(c, s).value;
    var rest := if s.namespace != "" && s.namespace !in matching then [s.namespace] else [];
    assert names == matching + rest;
    IndexOfAppend(matching, rest, nss[i].name);
    IndexOfAppend(matching, rest, nss[j].name);
    if rest != [] {
      IndexOfUnique(names, s.namespace, |matching|);
    }
  }

  /**
   As far as each namespace is concerned, a fetch returns exactly what matches, in the order
   of the cluster, if the selector names that namespace or names none at all, and nothing
   otherwise.
   */
  lemma {:induction false} FetchedInOrder(c: Cluster, s: Selector, m: string)
    requires c.mapping.Mapped? && ValidCluster(c) && Fetched(c, s).Ok?
    ensures Filter(Fetched(c, s).value, InNamespace(m)) ==
            if NamesNamespace(c, s, m) || (forall n :: !NamesNamespace(c, s, n))
            then Filter(c.resources, MatchingIn(s, m)) else []
  {
    var nss := SelectedNamespaces(c, s).value;
    SelectedAreNamed(c, s);
    hide SelectedNamespaces, NamesNamespace;
    if nss == [] {
      var matching := (r: Resource) => s.matches(r.labels);
      FilterTwice(c.resources, matching, InNamespace(m), MatchingIn(s, m));
    } else {
      assert NamesNamespace(c, s, nss[0]);
      CollectedPerNamespace(c, s, nss, m);
    }
  }
}
