// Role resolution: bindings compiled once against a role directory, and the
// plain meaning the compiled form must keep.
module Resolver {
  import opened Text
  import opened Labels
  import S = Selectors
  import SelectorParser

  datatype Role = Role(name: string, labels: LabelMap, enabled: bool, revision: int)

  datatype Binding = Binding(id: string, name: string, userSelector: string, roleSelector: string, enabled: bool,
    revision: int)

  datatype GrantSource = GrantSource(kind: string, id: string, name: string, revision: int, userSelector: string,
    roleSelector: string)

  datatype DirectGrant = DirectGrant(role: string, source: GrantSource)

  const BASELINE: string := "user"
  const BASELINE_SOURCE: GrantSource := GrantSource("baseline", "", "默认用户角色", 0, "", "")

  function BindingSource(b: Binding): GrantSource {
    GrantSource("binding", b.id, b.name, b.revision, b.userSelector, b.roleSelector)
  }

  // label.BindingSelector: an explicit selector, never the one that matches all.
  function BindingSelector(value: string): Option<S.Selector> {
    if TrimSpace(value) == "" || |value| > 1024 then None
    else
      var parsed := S.Parse(value);
      if parsed.None? || parsed.value == [] then None else parsed
  }

  // How selector text is read; BindingSelector in the program itself.
  type Select = string -> Option<S.Selector>

  // ---- the plain meaning ----

  predicate BindingGrants(select: Select, b: Binding, subject: LabelMap, labels: LabelMap) {
    && b.enabled && select(b.userSelector).Some? && select(b.roleSelector).Some?
    && S.Matches(select(b.userSelector).value, subject)
    && S.Matches(select(b.roleSelector).value, labels)
  }

  function EnabledRoles(roles: seq<Role>): seq<Role> {
    if roles == [] then []
    else EnabledRoles(roles[..|roles| - 1]) + if roles[|roles| - 1].enabled then [roles[|roles| - 1]] else []
  }

  // The role that a name means: the last of the directory that carries it.
  predicate NamedLast(roles: seq<Role>, i: nat)
    requires i < |roles|
  {
    forall j | i < j < |roles| :: roles[j].name != roles[i].name
  }

  function DirectSources(direct: seq<DirectGrant>, name: string): seq<GrantSource> {
    if direct == [] then []
    else
      var last := direct[|direct| - 1];
      DirectSources(direct[..|direct| - 1], name) + if last.role == name then [last.source] else []
  }

  function BindingSources(select: Select, bindings: seq<Binding>, subject: LabelMap,
    labels: LabelMap): seq<GrantSource> {
    if bindings == [] then []
    else
      var last := bindings[|bindings| - 1];
      BindingSources(select, bindings[..|bindings| - 1], subject, labels)
      + if BindingGrants(select, last, subject, labels) then [BindingSource(last)] else []
  }

  function NameSources(roles: seq<Role>, direct: seq<DirectGrant>, i: nat): seq<GrantSource>
    requires i < |roles|
  {
    if !NamedLast(roles, i) then []
    else (if roles[i].name == BASELINE then [BASELINE_SOURCE] else []) + DirectSources(direct, roles[i].name)
  }

  // Why role i is granted: the baseline, then direct assignments, then bindings.
  function Sources(select: Select, roles: seq<Role>, bindings: seq<Binding>, subject: LabelMap,
    direct: seq<DirectGrant>, i: nat): seq<GrantSource>
    requires i < |roles|
  {
    NameSources(roles, direct, i) + BindingSources(select, bindings, subject, roles[i].labels)
  }

  datatype RoleGrant = RoleGrant(role: Role, sources: seq<GrantSource>)

  // The first n roles of the directory that have a source, in directory order.
  function Explained(roles: seq<Role>, sources: nat -> seq<GrantSource>, n: nat): seq<RoleGrant>
    requires n <= |roles|
  {
    if n == 0 then []
    else Explained(roles, sources, n - 1) + if sources(n - 1) != [] then [RoleGrant(roles[n - 1], sources(n - 1))]
      else []
  }

  ghost function SourcesOf(select: Select, roles: seq<Role>, bindings: seq<Binding>, subject: LabelMap,
    direct: seq<DirectGrant>)
    : nat -> seq<GrantSource>
  {
    (i: nat) => if i < |roles| then Sources(select, roles, bindings, subject, direct, i) else []
  }

  // Granted, with no mention of lists of sources.
  ghost predicate IsGranted(select: Select, roles: seq<Role>, bindings: seq<Binding>, subject: LabelMap,
    explicit: seq<string>, i: nat)
    requires i < |roles|
  {
    || (NamedLast(roles, i) && (roles[i].name == BASELINE || roles[i].name in explicit))
    || exists b | b in bindings :: BindingGrants(select, b, subject, roles[i].labels)
  }

  ghost function GrantedBy(select: Select, roles: seq<Role>, bindings: seq<Binding>, subject: LabelMap,
    explicit: seq<string>)
    : nat -> bool
  {
    (i: nat) => i < |roles| && IsGranted(select, roles, bindings, subject, explicit, i)
  }

  // The first n roles of the directory that are granted, in directory order.
  ghost function GrantedRoles(roles: seq<Role>, granted: nat -> bool, n: nat): seq<Role>
    requires n <= |roles|
  {
    if n == 0 then [] else GrantedRoles(roles, granted, n - 1) + if granted(n - 1) then [roles[n - 1]] else []
  }

  // ---- the compiled form ----

  datatype CompiledBinding = CompiledBinding(subject: S.Selector, roles: seq<nat>, source: GrantSource)

  datatype Compiled = Compiled(roles: seq<Role>, byName: map<string, nat>, bindings: seq<CompiledBinding>)

  // The indices below n of the roles a selector matches.
  function MatchingRoles(sel: S.Selector, roles: seq<Role>, n: nat): seq<nat>
    requires n <= |roles|
  {
    if n == 0 then []
    else MatchingRoles(sel, roles, n - 1) + if S.Matches(sel, roles[n - 1].labels) then [n - 1] else []
  }

  function CompileOne(select: Select, b: Binding, roles: seq<Role>): Option<CompiledBinding> {
    if !b.enabled || select(b.userSelector).None? || select(b.roleSelector).None? then None
    else
      var matching := MatchingRoles(select(b.roleSelector).value, roles, |roles|);
      if matching == [] then None
      else Some(CompiledBinding(select(b.userSelector).value, matching, BindingSource(b)))
  }

  function CompileAll(select: Select, bindings: seq<Binding>, roles: seq<Role>): seq<CompiledBinding> {
    if bindings == [] then []
    else
      var last := CompileOne(select, bindings[|bindings| - 1], roles);
      CompileAll(select, bindings[..|bindings| - 1], roles) + if last.Some? then [last.value] else []
  }

  // byName sends a name to the last role that carries it.
  ghost predicate NamesOf(byName: map<string, nat>, roles: seq<Role>) {
    && (forall name | name in byName ::
          byName[name] < |roles| && roles[byName[name]].name == name && NamedLast(roles, byName[name]))
    && (forall i | 0 <= i < |roles| :: roles[i].name in byName)
  }

  ghost predicate Compiles(select: Select, c: Compiled, roles: seq<Role>, bindings: seq<Binding>) {
    c.roles == EnabledRoles(roles) && NamesOf(c.byName, c.roles) && c.bindings == CompileAll(select, bindings, c.roles)
  }

  lemma NamesOneMore(byName: map<string, nat>, roles: seq<Role>, role: Role)
    requires NamesOf(byName, roles)
    ensures NamesOf(byName[role.name := |roles|], roles + [role])
  {
    var all := roles + [role];
    var names := byName[role.name := |roles|];
    forall name | name in names
      ensures names[name] < |all| && all[names[name]].name == name && NamedLast(all, names[name])
    {
      if name != role.name { assert NamedLast(roles, byName[name]); }
    }
  }

  method NewResolver(roles: seq<Role>, bindings: seq<Binding>) returns (c: Compiled)
    ensures Compiles(BindingSelector, c, roles, bindings)
  {
    var enabled: seq<Role> := [];
    var byName: map<string, nat> := map[];
    for i := 0 to |roles|
      invariant enabled == EnabledRoles(roles[..i]) && NamesOf(byName, enabled)
    {
      assert roles[..i + 1][..i] == roles[..i];
      if roles[i].enabled {
        NamesOneMore(byName, enabled, roles[i]);
        byName := byName[roles[i].name := |enabled|];
        enabled := enabled + [roles[i]];
      }
    }
    assert roles[..|roles|] == roles;
    var compiled := CompileBindings(bindings, enabled);
    c := Compiled(enabled, byName, compiled);
  }

  // One turn of NewResolver's second loop: nothing for a binding that is
  // disabled, unreadable or matches no role.
  method CompileBinding(b: Binding, roles: seq<Role>) returns (one: Option<CompiledBinding>)
    ensures one == CompileOne(BindingSelector, b, roles)
  {
    if !b.enabled {
      return None;
    }
    var user := ParseBindingSelector(b.userSelector);
    if user.None? {
      return None;
    }
    var role := ParseBindingSelector(b.roleSelector);
    if role.None? {
      return None;
    }
    var matching := MatchRoles(role.value, roles);
    one := if |matching| > 0 then Some(CompiledBinding(user.value, matching, BindingSource(b))) else None;
  }

  method MatchRoles(sel: S.Selector, roles: seq<Role>) returns (matching: seq<nat>)
    ensures matching == MatchingRoles(sel, roles, |roles|)
  {
    matching := [];
    for j := 0 to |roles|
      invariant matching == MatchingRoles(sel, roles, j)
    {
      if S.Matches(sel, roles[j].labels) {
        matching := matching + [j];
      }
    }
  }

  method CompileBindings(bindings: seq<Binding>, roles: seq<Role>) returns (compiled: seq<CompiledBinding>)
    ensures compiled == CompileAll(BindingSelector, bindings, roles)
  {
    compiled := [];
    for i := 0 to |bindings|
      invariant compiled == CompileAll(BindingSelector, bindings[..i], roles)
    {
      assert bindings[..i + 1][..i] == bindings[..i];
      var one := CompileBinding(bindings[i], roles);
      if one.Some? {
        compiled := compiled + [one.value];
      }
    }
    assert bindings[..|bindings|] == bindings;
  }

  method ParseBindingSelector(value: string) returns (s: Option<S.Selector>)
    ensures s == BindingSelector(value)
    ensures s.Some? <==> TrimSpace(value) != "" && |value| <= 1024 && S.Parse(value).Some? && S.Parse(value).value != []
    ensures s.Some? ==> s == S.Parse(value) && S.ValidSelector(s.value)
  {
    if TrimSpace(value) == "" || |value| > 1024 {
      return None;
    }
    s := SelectorParser.Parse(value);
    if s.Some? && s.value == [] {
      s := None;
    }
  }

  // ---- the traversal ----

  // The sources a sequence of grant calls gives role i, in call order.
  function GrantsFor(grants: seq<(nat, GrantSource)>, i: nat): seq<GrantSource> {
    if grants == [] then []
    else
      var last := grants[|grants| - 1];
      GrantsFor(grants[..|grants| - 1], i) + if last.0 == i then [last.1] else []
  }

  lemma GrantOneMore(grants: seq<(nat, GrantSource)>, index: nat, source: GrantSource, i: nat)
    ensures GrantsFor(grants + [(index, source)], i) == GrantsFor(grants, i) + if index == i then [source] else []
  {
    assert (grants + [(index, source)])[..|grants|] == grants;
  }

  // The sources of role i from the first compiled bindings.
  function CompiledSources(compiled: seq<CompiledBinding>, subject: LabelMap, i: nat): seq<GrantSource> {
    if compiled == [] then []
    else
      var last := compiled[|compiled| - 1];
      CompiledSources(compiled[..|compiled| - 1], subject, i)
      + if S.Matches(last.subject, subject) && i in last.roles then [last.source] else []
  }

  lemma {:induction false} MatchingMeansMatches(sel: S.Selector, roles: seq<Role>, n: nat, i: nat)
    requires n <= |roles|
    ensures i in MatchingRoles(sel, roles, n) <==> i < n && S.Matches(sel, roles[i].labels)
    ensures forall k | 0 <= k < |MatchingRoles(sel, roles, n)| :: MatchingRoles(sel, roles, n)[k] < n
    decreases n
  {
    if n > 0 {
      MatchingMeansMatches(sel, roles, n - 1, i);
    }
  }

  // Compiling keeps the sources of every role.
  lemma {:induction false} CompilingKeepsSources(select: Select, bindings: seq<Binding>, roles: seq<Role>,
    subject: LabelMap, i: nat)
    requires i < |roles|
    ensures CompiledSources(CompileAll(select, bindings, roles), subject, i)
      == BindingSources(select, bindings, subject, roles[i].labels)
    decreases |bindings|
  {
    if bindings != [] {
      var front, last := bindings[..|bindings| - 1], bindings[|bindings| - 1];
      CompilingKeepsSources(select, front, roles, subject, i);
      if last.enabled && select(last.userSelector).Some? && select(last.roleSelector).Some? {
        MatchingMeansMatches(select(last.roleSelector).value, roles, |roles|, i);
      }
      var before := CompileAll(select, front, roles);
      var one := CompileOne(select, last, roles);
      if one.Some? {
        assert (before + [one.value])[..|before|] == before;
      } else {
        assert before + [] == before && !BindingGrants(select, last, subject, roles[i].labels);
        assert BindingSources(select, front, subject, roles[i].labels) + []
          == BindingSources(select, front, subject, roles[i].labels);
      }
    }
  }

  // What the grant calls have given every role after k direct assignments.
  ghost predicate NamesVisited(c: Compiled, direct: seq<DirectGrant>, grants: seq<(nat, GrantSource)>) {
    && (forall g | 0 <= g < |grants| :: grants[g].0 < |c.roles|)
    && (forall i | 0 <= i < |c.roles| :: GrantsFor(grants, i) == NameSources(c.roles, direct, i))
  }

  // The baseline and direct part of visit.
  method VisitNames(c: Compiled, direct: seq<DirectGrant>) returns (grants: seq<(nat, GrantSource)>)
    requires NamesOf(c.byName, c.roles)
    ensures NamesVisited(c, direct, grants)
  {
    grants := [];
    if BASELINE in c.byName {
      grants := [(c.byName[BASELINE], BASELINE_SOURCE)];
    }
    BaselineVisited(c);
    for k := 0 to |direct|
      invariant NamesVisited(c, direct[..k], grants)
    {
      DirectVisited(c, direct, k, grants);
      if direct[k].role in c.byName {
        grants := grants + [(c.byName[direct[k].role], direct[k].source)];
      }
    }
    assert direct[..|direct|] == direct;
  }

  lemma BaselineVisited(c: Compiled)
    requires NamesOf(c.byName, c.roles)
    ensures NamesVisited(c, [], if BASELINE in c.byName then [(c.byName[BASELINE], BASELINE_SOURCE)] else [])
  {
    if BASELINE in c.byName {
      var index := c.byName[BASELINE];
      forall i | 0 <= i < |c.roles|
        ensures GrantsFor([(index, BASELINE_SOURCE)], i) == NameSources(c.roles, [], i)
      {
        GrantOneMore([], index, BASELINE_SOURCE, i);
        OnlyLastIsNamed(c.roles, index, i);
      }
    }
  }

  lemma OnlyLastIsNamed(roles: seq<Role>, index: nat, i: nat)
    requires index < |roles| && i < |roles| && NamedLast(roles, index)
    ensures NamedLast(roles, i) && roles[i].name == roles[index].name <==> i == index
  {
  }

  lemma DirectVisited(c: Compiled, direct: seq<DirectGrant>, k: nat, grants: seq<(nat, GrantSource)>)
    requires k < |direct| && NamesOf(c.byName, c.roles) && NamesVisited(c, direct[..k], grants)
    ensures NamesVisited(c, direct[..k + 1],
                         if direct[k].role in c.byName then grants + [(c.byName[direct[k].role], direct[k].source)]
                           else grants)
  {
    var d := direct[k];
    var more := if d.role in c.byName then grants + [(c.byName[d.role], d.source)] else grants;
    assert direct[..k + 1][..k] == direct[..k];
    forall i | 0 <= i < |c.roles| ensures GrantsFor(more, i) == NameSources(c.roles, direct[..k + 1], i) {
      if d.role in c.byName {
        GrantOneMore(grants, c.byName[d.role], d.source, i);
        OnlyLastIsNamed(c.roles, c.byName[d.role], i);
      }
    }
  }

  // The grant calls one matching binding makes.
  method VisitBinding(roles: seq<nat>, source: GrantSource, before: seq<(nat, GrantSource)>, ghost bound: nat)
    returns (grants: seq<(nat, GrantSource)>)
    requires (forall g | 0 <= g < |before| :: before[g].0 < bound) && AreIndices(roles, bound)
    ensures forall g | 0 <= g < |grants| :: grants[g].0 < bound
    ensures forall i: nat :: GrantsFor(grants, i) == GrantsFor(before, i) + if i in roles then [source] else []
  {
    grants := before;
    for k := 0 to |roles|
      invariant forall g | 0 <= g < |grants| :: grants[g].0 < bound
      invariant forall i: nat :: GrantsFor(grants, i) == GrantsFor(before, i) + if i in roles[..k] then [source] else []
    {
      assert roles[..k + 1] == roles[..k] + [roles[k]];
      forall i: nat
        ensures GrantsFor(grants + [(roles[k], source)], i)
             == GrantsFor(before, i) + if i in roles[..k + 1] then [source] else []
      {
        GrantOneMore(grants, roles[k], source, i);
      }
      grants := grants + [(roles[k], source)];
    }
    assert roles[..|roles|] == roles;
  }

  ghost predicate AreIndices(m: seq<nat>, n: nat) {
    (forall k | 0 <= k < |m| :: m[k] < n) && (forall j, k | 0 <= j < k < |m| :: m[j] != m[k])
  }

  lemma {:induction false} MatchingIsAscending(sel: S.Selector, roles: seq<Role>, n: nat)
    requires n <= |roles|
    ensures AreIndices(MatchingRoles(sel, roles, n), n)
    decreases n
  {
    if n > 0 {
      MatchingIsAscending(sel, roles, n - 1);
      var front := MatchingRoles(sel, roles, n - 1);
      assert MatchingRoles(sel, roles, n) == if S.Matches(sel, roles[n - 1].labels) then front + [n - 1] else front;
    }
  }

  lemma {:induction false} CompiledRolesAreIndices(select: Select, bindings: seq<Binding>, roles: seq<Role>, k: nat)
    requires k < |CompileAll(select, bindings, roles)|
    ensures AreIndices(CompileAll(select, bindings, roles)[k].roles, |roles|)
    decreases |bindings|
  {
    var front, last := bindings[..|bindings| - 1], bindings[|bindings| - 1];
    if k < |CompileAll(select, front, roles)| {
      CompiledRolesAreIndices(select, front, roles, k);
    } else {
      MatchingIsAscending(select(last.roleSelector).value, roles, |roles|);
    }
  }

  // The grant calls made for the names and the first k compiled bindings.
  ghost predicate Visited(c: Compiled, subject: LabelMap, direct: seq<DirectGrant>, k: nat,
    grants: seq<(nat, GrantSource)>)
    requires k <= |c.bindings|
  {
    && (forall g | 0 <= g < |grants| :: grants[g].0 < |c.roles|)
    && (forall i | 0 <= i < |c.roles| ::
          GrantsFor(grants, i) == NameSources(c.roles, direct, i) + CompiledSources(c.bindings[..k], subject, i))
  }

  method VisitNext(c: Compiled, subject: LabelMap, ghost direct: seq<DirectGrant>, k: nat,
    before: seq<(nat, GrantSource)>)
    returns (grants: seq<(nat, GrantSource)>)
    requires k < |c.bindings| && AreIndices(c.bindings[k].roles, |c.roles|) && Visited(c, subject, direct, k, before)
    ensures Visited(c, subject, direct, k + 1, grants)
  {
    var b := c.bindings[k];
    assert c.bindings[..k + 1][..k] == c.bindings[..k];
    grants := before;
    if S.Matches(b.subject, subject) {
      grants := VisitBinding(b.roles, b.source, before, |c.roles|);
    }
  }

  // visit: the grant calls, in order, give every role exactly its sources.
  method Visit(c: Compiled, subject: LabelMap, direct: seq<DirectGrant>, ghost select: Select, ghost roles: seq<Role>,
    ghost bindings: seq<Binding>)
    returns (grants: seq<(nat, GrantSource)>)
    requires Compiles(select, c, roles, bindings)
    ensures forall g | 0 <= g < |grants| :: grants[g].0 < |c.roles|
    ensures forall i | 0 <= i < |c.roles| ::
      GrantsFor(grants, i) == Sources(select, c.roles, bindings, subject, direct, i)
  {
    grants := VisitNames(c, direct);
    for k := 0 to |c.bindings|
      invariant Visited(c, subject, direct, k, grants)
    {
      CompiledRolesAreIndices(select, bindings, c.roles, k);
      grants := VisitNext(c, subject, direct, k, grants);
    }
    assert c.bindings[..|c.bindings|] == c.bindings;
    forall i | 0 <= i < |c.roles| ensures GrantsFor(grants, i)
      == Sources(select, c.roles, bindings, subject, direct, i) {
      CompilingKeepsSources(select, bindings, c.roles, subject, i);
    }
  }

  method CollectSources(grants: seq<(nat, GrantSource)>, n: nat) returns (sources: array<seq<GrantSource>>)
    requires forall g | 0 <= g < |grants| :: grants[g].0 < n
    ensures fresh(sources) && sources.Length == n && forall i | 0 <= i < n :: sources[i] == GrantsFor(grants, i)
  {
    sources := new seq<GrantSource>[n](_ => []);
    for k := 0 to |grants|
      invariant forall i | 0 <= i < n :: sources[i] == GrantsFor(grants[..k], i)
    {
      assert grants[..k + 1][..k] == grants[..k];
      sources[grants[k].0] := sources[grants[k].0] + [grants[k].1];
    }
    assert grants[..|grants|] == grants;
  }

  method ListExplained(roles: seq<Role>, found: array<seq<GrantSource>>, ghost sources: nat -> seq<GrantSource>)
    returns (result: seq<RoleGrant>)
    requires found.Length == |roles| && forall i | 0 <= i < |roles| :: found[i] == sources(i)
    ensures result == Explained(roles, sources, |roles|)
  {
    result := [];
    for i := 0 to |roles|
      invariant result == Explained(roles, sources, i)
    {
      if |found[i]| > 0 {
        result := result + [RoleGrant(roles[i], found[i])];
      }
    }
  }

  // Explain: every granted role with all its sources, in directory order.
  method Explain(c: Compiled, subject: LabelMap, direct: seq<DirectGrant>, ghost select: Select,
    ghost roles: seq<Role>, ghost bindings: seq<Binding>)
    returns (result: seq<RoleGrant>)
    requires Compiles(select, c, roles, bindings)
    ensures result == Explained(c.roles, SourcesOf(select, c.roles, bindings, subject, direct), |c.roles|)
  {
    var grants := Visit(c, subject, direct, select, roles, bindings);
    var found := CollectSources(grants, |c.roles|);
    result := ListExplained(c.roles, found, SourcesOf(select, c.roles, bindings, subject, direct));
  }

  function DirectOf(explicit: seq<string>): seq<DirectGrant> {
    seq(|explicit|, k requires 0 <= k < |explicit| => DirectGrant(explicit[k], GrantSource("", "", "", 0, "", "")))
  }

  function NamesIn(direct: seq<DirectGrant>): seq<string> {
    seq(|direct|, k requires 0 <= k < |direct| => direct[k].role)
  }

  lemma {:induction false} DirectMeansNamed(direct: seq<DirectGrant>, name: string)
    ensures DirectSources(direct, name) != [] <==> name in NamesIn(direct)
    decreases |direct|
  {
    if direct != [] {
      var front := direct[..|direct| - 1];
      DirectMeansNamed(front, name);
      assert NamesIn(direct) == NamesIn(front) + [direct[|direct| - 1].role];
    }
  }

  lemma {:induction false} BindingSourcesMeanGrant(select: Select, bindings: seq<Binding>, subject: LabelMap,
    labels: LabelMap)
    ensures BindingSources(select, bindings, subject, labels) != []
      <==> exists b | b in bindings :: BindingGrants(select, b, subject, labels)
    decreases |bindings|
  {
    if bindings != [] {
      var front, last := bindings[..|bindings| - 1], bindings[|bindings| - 1];
      BindingSourcesMeanGrant(select, front, subject, labels);
      assert bindings == front + [last];
    }
  }

  // A role has a source exactly when it is granted.
  lemma SourcesMeanGranted(select: Select, roles: seq<Role>, bindings: seq<Binding>, subject: LabelMap,
    direct: seq<DirectGrant>, i: nat)
    requires i < |roles|
    ensures Sources(select, roles, bindings, subject, direct, i) != []
      <==> IsGranted(select, roles, bindings, subject, NamesIn(direct), i)
  {
    DirectMeansNamed(direct, roles[i].name);
    BindingSourcesMeanGrant(select, bindings, subject, roles[i].labels);
  }

  lemma {:induction false} DirectSourcesExactly(direct: seq<DirectGrant>, name: string, source: GrantSource)
    ensures source in DirectSources(direct, name) <==> DirectGrant(name, source) in direct
    decreases |direct|
  {
    if direct != [] {
      var front, last := direct[..|direct| - 1], direct[|direct| - 1];
      DirectSourcesExactly(front, name, source);
      assert direct == front + [last];
    }
  }

  // The source a binding is shown as: its own ID, name, revision and selectors.
  ghost predicate Shows(source: GrantSource, b: Binding) {
    && source.kind == "binding" && source.id == b.id && source.name == b.name && source.revision == b.revision
    && source.userSelector == b.userSelector && source.roleSelector == b.roleSelector
  }

  lemma {:induction false} BindingSourcesExactly(select: Select, bindings: seq<Binding>, subject: LabelMap,
    labels: LabelMap, source: GrantSource)
    ensures source in BindingSources(select, bindings, subject, labels)
      <==> exists b | b in bindings :: BindingGrants(select, b, subject, labels) && Shows(source, b)
    decreases |bindings|
  {
    if bindings != [] {
      var front, last := bindings[..|bindings| - 1], bindings[|bindings| - 1];
      BindingSourcesExactly(select, front, subject, labels, source);
      assert bindings == front + [last];
      assert source == BindingSource(last) <==> Shows(source, last);
    }
  }

  // What a role is explained by: the baseline if it is the role of that name, an
  // assignment of its name, or a binding that grants it, shown with its own data.
  lemma SourcesAreTrue(select: Select, roles: seq<Role>, bindings: seq<Binding>, subject: LabelMap,
    direct: seq<DirectGrant>, i: nat, source: GrantSource)
    requires i < |roles|
    ensures source in Sources(select, roles, bindings, subject, direct, i)
      <==> || (NamedLast(roles, i) && roles[i].name == "user" && source == BASELINE_SOURCE)
           || (NamedLast(roles, i) && DirectGrant(roles[i].name, source) in direct)
           || exists b | b in bindings :: BindingGrants(select, b, subject, roles[i].labels) && Shows(source, b)
  {
    DirectSourcesExactly(direct, roles[i].name, source);
    BindingSourcesExactly(select, bindings, subject, roles[i].labels, source);
  }

  lemma {:induction false} EnabledRolesExactly(roles: seq<Role>, r: Role)
    ensures r in EnabledRoles(roles) <==> r in roles && r.enabled
    decreases |roles|
  {
    if roles != [] {
      var front, last := roles[..|roles| - 1], roles[|roles| - 1];
      EnabledRolesExactly(front, r);
      assert roles == front + [last];
    }
  }

  lemma {:induction false} GrantedRolesExactly(roles: seq<Role>, granted: nat -> bool, n: nat, r: Role)
    requires n <= |roles|
    ensures r in GrantedRoles(roles, granted, n) <==> exists i | 0 <= i < n :: granted(i) && roles[i] == r
    decreases n
  {
    if n > 0 { GrantedRolesExactly(roles, granted, n - 1, r); }
  }

  function RolesOf(grants: seq<RoleGrant>): seq<Role> {
    seq(|grants|, k requires 0 <= k < |grants| => grants[k].role)
  }

  lemma RolesOfOneMore(grants: seq<RoleGrant>, g: RoleGrant)
    ensures RolesOf(grants + [g]) == RolesOf(grants) + [g.role]
    ensures RolesOf(grants + []) == RolesOf(grants) + []
  {
  }

  lemma {:induction false} SameRolesListed(roles: seq<Role>, sources: nat -> seq<GrantSource>, granted: nat -> bool,
    n: nat)
    requires n <= |roles| && forall i | 0 <= i < n :: sources(i) != [] <==> granted(i)
    ensures RolesOf(Explained(roles, sources, n)) == GrantedRoles(roles, granted, n)
    decreases n
  {
    if n > 0 {
      SameRolesListed(roles, sources, granted, n - 1);
      RolesOfOneMore(Explained(roles, sources, n - 1), RoleGrant(roles[n - 1], sources(n - 1)));
    }
  }

  // Explain lists exactly the roles that Resolve grants.
  lemma ExplainListsTheGranted(select: Select, roles: seq<Role>, bindings: seq<Binding>, subject: LabelMap,
    direct: seq<DirectGrant>)
    ensures RolesOf(Explained(roles, SourcesOf(select, roles, bindings, subject, direct), |roles|))
         == GrantedRoles(roles, GrantedBy(select, roles, bindings, subject, NamesIn(direct)), |roles|)
  {
    var sources := SourcesOf(select, roles, bindings, subject, direct);
    var granted := GrantedBy(select, roles, bindings, subject, NamesIn(direct));
    forall i | 0 <= i < |roles| ensures sources(i) != [] <==> granted(i) {
      SourcesMeanGranted(select, roles, bindings, subject, direct, i);
    }
    SameRolesListed(roles, sources, granted, |roles|);
  }

  method MarkGranted(grants: seq<(nat, GrantSource)>, n: nat) returns (granted: array<bool>)
    requires forall g | 0 <= g < |grants| :: grants[g].0 < n
    ensures fresh(granted) && granted.Length == n && forall i | 0 <= i < n :: granted[i] <==> GrantsFor(grants, i) != []
  {
    granted := new bool[n](_ => false);
    for k := 0 to |grants|
      invariant forall i | 0 <= i < n :: granted[i] <==> GrantsFor(grants[..k], i) != []
    {
      assert grants[..k + 1][..k] == grants[..k];
      granted[grants[k].0] := true;
    }
    assert grants[..|grants|] == grants;
  }

  method ListGranted(roles: seq<Role>, marks: array<bool>, ghost granted: nat -> bool) returns (result: seq<Role>)
    requires marks.Length == |roles| && forall i | 0 <= i < |roles| :: marks[i] <==> granted(i)
    ensures result == GrantedRoles(roles, granted, |roles|)
  {
    result := [];
    for i := 0 to |roles|
      invariant result == GrantedRoles(roles, granted, i)
    {
      if marks[i] {
        result := result + [roles[i]];
      }
    }
  }

  // Resolve: the enabled roles granted, in directory order.
  method Resolve(c: Compiled, subject: LabelMap, explicit: seq<string>, ghost select: Select, ghost roles: seq<Role>,
    ghost bindings: seq<Binding>)
    returns (result: seq<Role>)
    requires Compiles(select, c, roles, bindings)
    ensures result == GrantedRoles(c.roles, GrantedBy(select, c.roles, bindings, subject, explicit), |c.roles|)
    ensures forall r | r in result :: r in roles && r.enabled
  {
    var direct := DirectOf(explicit);
    assert NamesIn(direct) == explicit;
    var grants := Visit(c, subject, direct, select, roles, bindings);
    var marks := MarkGranted(grants, |c.roles|);
    ghost var granted := GrantedBy(select, c.roles, bindings, subject, explicit);
    forall i | 0 <= i < |c.roles| ensures marks[i] <==> granted(i) {
      SourcesMeanGranted(select, c.roles, bindings, subject, direct, i);
    }
    result := ListGranted(c.roles, marks, granted);
    forall r | r in result ensures r in roles && r.enabled {
      GrantedRolesExactly(c.roles, granted, |c.roles|, r);
      EnabledRolesExactly(roles, r);
    }
  }

  // With distinct role names every name means its only role, so a role is
  // granted exactly by the baseline, a direct assignment, or a binding.
  lemma DistinctNamesGrant(select: Select, roles: seq<Role>, bindings: seq<Binding>, subject: LabelMap,
    explicit: seq<string>, i: nat)
    requires i < |roles| && forall j, k | 0 <= j < k < |roles| :: roles[j].name != roles[k].name
    ensures IsGranted(select, roles, bindings, subject, explicit, i)
       <==> roles[i].name == BASELINE || roles[i].name in explicit
            || exists b | b in bindings :: BindingGrants(select, b, subject, roles[i].labels)
  {
    assert NamedLast(roles, i);
  }
}
