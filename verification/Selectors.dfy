// Label selectors: their meaning, their printed form, the grammar the parser
// accepts, and how far parsing undoes printing.
module Selectors {
  import opened Text
  import opened Labels

  const MAX_REQUIREMENTS: nat := 32

  datatype Operator = Equals | NotEquals | In | NotIn | Exists | NotExists

  datatype Requirement = Requirement(key: string, op: Operator, values: seq<string>)

  type Selector = seq<Requirement>

  predicate Satisfies(r: Requirement, labels: LabelMap) {
    match r.op
    case Equals => r.key in labels && |r.values| == 1 && labels[r.key] == r.values[0]
    case NotEquals => r.key !in labels || |r.values| != 1 || labels[r.key] != r.values[0]
    case In => r.key in labels && labels[r.key] in r.values
    case NotIn => r.key !in labels || labels[r.key] !in r.values
    case Exists => r.key in labels
    case NotExists => r.key !in labels
  }

  predicate Matches(s: Selector, labels: LabelMap) {
    forall i | 0 <= i < |s| :: Satisfies(s[i], labels)
  }

  // What each operator asks of a label: a value, one of several values, any
  // value, or the opposite; a missing label meets exactly the opposites.
  lemma OperatorsMean(key: string, v: string, values: seq<string>, labels: LabelMap)
    ensures Satisfies(Requirement(key, Equals, [v]), labels) <==> key in labels && labels[key] == v
    ensures Satisfies(Requirement(key, In, values), labels)
      <==> exists i | 0 <= i < |values| :: Satisfies(Requirement(key, Equals, [values[i]]), labels)
    ensures Satisfies(Requirement(key, Exists, []), labels) <==> key in labels
    ensures Satisfies(Requirement(key, NotEquals, [v]), labels) <==> !Satisfies(Requirement(key, Equals, [v]), labels)
    ensures Satisfies(Requirement(key, NotIn, values), labels) <==> !Satisfies(Requirement(key, In, values), labels)
    ensures Satisfies(Requirement(key, NotExists, []), labels) <==> !Satisfies(Requirement(key, Exists, []), labels)
  {
    if key in labels && labels[key] in values {
      var i :| 0 <= i < |values| && values[i] == labels[key];
      assert Satisfies(Requirement(key, Equals, [values[i]]), labels);
    }
  }

  predicate ValidRequirement(r: Requirement) {
    && ValidKey(r.key)
    && (match r.op
        case Exists | NotExists => r.values == []
        case Equals | NotEquals => |r.values| == 1
        case In | NotIn => r.values != [])
    && forall i | 0 <= i < |r.values| :: ValidValue(r.values[i])
  }

  predicate ValidSelector(s: Selector) {
    |s| <= MAX_REQUIREMENTS && forall i | 0 <= i < |s| :: ValidRequirement(s[i])
  }

  // ---- printing ----

  function Join(parts: seq<string>): string {
    if parts == [] then "" else if |parts| == 1 then parts[0] else parts[0] + "," + Join(parts[1..])
  }

  function FirstValue(values: seq<string>): string {
    if values == [] then "" else values[0]
  }

  function PrintRequirement(r: Requirement): string {
    match r.op
    case Exists => r.key
    case NotExists => "!" + r.key
    case Equals => r.key + "=" + FirstValue(r.values)
    case NotEquals => r.key + "!=" + FirstValue(r.values)
    case In => r.key + " in (" + Join(r.values) + ")"
    case NotIn => r.key + " notin (" + Join(r.values) + ")"
  }

  function Parts(s: Selector): seq<string> {
    if s == [] then [] else [PrintRequirement(s[0])] + Parts(s[1..])
  }

  function Print(s: Selector): string {
    Join(Parts(s))
  }

  // ---- the grammar, on what is left of the input ----

  predicate IsBlank(c: char) {
    c == ' ' || c == '\t'
  }

  function Skip(s: string): (r: string)
    ensures |r| <= |s| && (r != "" ==> !IsBlank(r[0]))
  {
    if s != "" && IsBlank(s[0]) then Skip(s[1..]) else s
  }

  // How many identifier characters come first.
  function Span(s: string): (n: nat)
    ensures n <= |s| && AllIdent(s[..n]) && (n < |s| ==> !IsIdent(s[n]))
  {
    if s != "" && IsIdent(s[0]) then
      var n := 1 + Span(s[1..]);
      assert s[..n] == [s[0]] + s[1..][..n - 1];
      n
    else 0
  }

  function ParseIdentifier(s: string): (r: Option<(string, string)>)
    ensures r.Some? ==> |r.value.1| < |s|
  {
    var t := Skip(s);
    var n := Span(t);
    if n == 0 then None else Some((t[..n], t[n..]))
  }

  // The values after an opening parenthesis. A closing parenthesis may follow a
  // comma.
  function ParseItems(s: string): Option<(seq<string>, string)>
    decreases |s|
  {
    var t := Skip(s);
    if t == "" then None
    else if t[0] == ')' then Some(([], t[1..]))
    else
      var value, u := t[..Span(t)], Skip(t[Span(t)..]);
      if u == "" then None
      else if u[0] == ')' then Some(([value], u[1..]))
      else if u[0] != ',' then None
      else
        var more := ParseItems(u[1..]);
        if more.None? then None else Some(([value] + more.value.0, more.value.1))
  }

  function ParseValueSet(s: string): Option<(seq<string>, string)> {
    var t := Skip(s);
    if t == "" || t[0] != '(' then None else ParseItems(t[1..])
  }

  function ParseSetOperator(key: string, s: string): Option<(Requirement, string)> {
    var word := ParseIdentifier(s);
    if word.None? || (word.value.0 != "in" && word.value.0 != "notin") then None
    else
      var items := ParseValueSet(word.value.1);
      if items.None? then None
      else Some((Requirement(key, if word.value.0 == "in" then In else NotIn, items.value.0), items.value.1))
  }

  function ParseSingleValue(key: string, op: Operator, s: string): (Requirement, string) {
    var t := Skip(s);
    (Requirement(key, op, [t[..Span(t)]]), t[Span(t)..])
  }

  // What follows a key.
  function ParseCondition(key: string, u: string): Option<(Requirement, string)> {
    if u == "" || u[0] == ',' then Some((Requirement(key, Exists, []), u))
    else if u[0] == '=' then
      Some(ParseSingleValue(key, Equals, if |u| > 1 && u[1] == '=' then u[2..] else u[1..]))
    else if u[0] == '!' then
      if |u| == 1 || u[1] != '=' then None else Some(ParseSingleValue(key, NotEquals, u[2..]))
    else ParseSetOperator(key, u)
  }

  function ParseRequirement(s: string): Option<(Requirement, string)> {
    var t := Skip(s);
    if t == "" then None
    else if t[0] == '!' && |t| > 1 && t[1] != '=' then
      var key := ParseIdentifier(t[1..]);
      if key.None? then None else Some((Requirement(key.value.0, NotExists, []), key.value.1))
    else
      var key := ParseIdentifier(t);
      if key.None? then None else ParseCondition(key.value.0, Skip(key.value.1))
  }

  // The requirements from here on, when n have been read.
  function ParseRequirements(n: nat, s: string): Option<Selector>
    decreases MAX_REQUIREMENTS - n, |s|
  {
    if n >= MAX_REQUIREMENTS then None
    else
      var r := ParseRequirement(s);
      if r.None? then None
      else
        var t := Skip(r.value.1);
        if t == "" then Some([r.value.0])
        else if t[0] != ',' || Skip(t[1..]) == "" then None
        else
          var more := ParseRequirements(n + 1, Skip(t[1..]));
          if more.None? then None else Some([r.value.0] + more.value)
  }

  function ParseSelector(s: string): Option<Selector> {
    if Skip(s) == "" then Some([]) else ParseRequirements(0, Skip(s))
  }

  function Parse(s: string): Option<Selector> {
    var parsed := ParseSelector(s);
    if parsed.Some? && ValidSelector(parsed.value) then parsed else None
  }

  // ---- what parsing a printed selector gives ----

  predicate EndsEmpty(values: seq<string>) {
    values != [] && values[|values| - 1] == ""
  }

  // A value list with one trailing empty value dropped.
  function Trimmed(values: seq<string>): seq<string> {
    if EndsEmpty(values) then values[..|values| - 1] else values
  }

  predicate IsSet(r: Requirement) {
    r.op.In? || r.op.NotIn?
  }

  function TrimRequirement(r: Requirement): Requirement {
    if IsSet(r) then r.(values := Trimmed(r.values)) else r
  }

  function TrimSelector(s: Selector): (t: Selector)
    ensures |t| == |s| && forall i | 0 <= i < |s| :: t[i] == TrimRequirement(s[i])
  {
    if s == [] then [] else [TrimRequirement(s[0])] + TrimSelector(s[1..])
  }

  // What may follow a requirement or value in printed text.
  predicate Stops(t: string) {
    t == "" || (!IsIdent(t[0]) && !IsBlank(t[0]))
  }

  lemma {:induction false} SpanStops(a: string, t: string)
    requires AllIdent(a) && (t == "" || !IsIdent(t[0]))
    ensures Span(a + t) == |a| && (a + t)[..|a|] == a && (a + t)[|a|..] == t
    decreases |a|
  {
    if a == "" {
      assert a + t == t;
    } else {
      var s := a + t;
      assert s[0] == a[0] && IsIdent(s[0]);
      assert s[1..] == a[1..] + t;
      assert AllIdent(a[1..]);
      SpanStops(a[1..], t);
      assert Span(s) == 1 + Span(s[1..]);
    }
  }

  lemma IdentifierStops(a: string, t: string)
    requires a != "" && AllIdent(a) && (t == "" || !IsIdent(t[0]))
    ensures ParseIdentifier(a + t) == Some((a, t))
  {
    assert (a + t)[0] == a[0] && IsIdent(a[0]);
    assert Skip(a + t) == a + t;
    SpanStops(a, t);
  }

  lemma LastItem(v: string, t: string)
    requires AllIdent(v) && v != ""
    ensures ParseItems(v + (")" + t)) == Some(([v], t))
  {
    var s := v + (")" + t);
    assert s[0] == v[0] && IsIdent(v[0]);
    SpanStops(v, ")" + t);
    assert (")" + t)[1..] == t;
  }

  lemma ItemThenComma(v: string, rest: string)
    requires AllIdent(v) && ParseItems(rest).Some?
    ensures ParseItems(v + ("," + rest)) == Some(([v] + ParseItems(rest).value.0, ParseItems(rest).value.1))
  {
    var s := v + ("," + rest);
    assert s[0] == if v == "" then ',' else v[0];
    SpanStops(v, "," + rest);
    assert ("," + rest)[1..] == rest;
  }

  // Parsing a printed value list returns it with one trailing empty value
  // dropped.
  lemma {:induction false} ItemsRoundTrip(values: seq<string>, t: string)
    requires forall i | 0 <= i < |values| :: AllIdent(values[i])
    ensures ParseItems(Join(values) + (")" + t)) == Some((Trimmed(values), t))
    decreases |values|
  {
    if |values| <= 1 && Join(values) == "" {
      NoItem(values, t);
    } else if |values| == 1 {
      LastItem(values[0], t);
      assert Trimmed(values) == values == [values[0]];
    } else {
      ItemsRoundTrip(values[1..], t);
      ItemThenComma(values[0], Join(values[1..]) + (")" + t));
      JoinThen(values, ")" + t);
    }
  }

  lemma NoItem(values: seq<string>, t: string)
    requires |values| <= 1 && Join(values) == ""
    ensures ParseItems(Join(values) + (")" + t)) == Some((Trimmed(values), t))
  {
    var close := ")" + t;
    assert Join(values) + close == close && close[1..] == t && Trimmed(values) == [];
  }

  lemma {:induction false} JoinThen(values: seq<string>, close: string)
    requires |values| > 1
    ensures Join(values) + close == values[0] + ("," + (Join(values[1..]) + close))
    ensures Trimmed(values) == [values[0]] + Trimmed(values[1..])
  {
    Regrouped(values[0], ",", Join(values[1..]), close);
  }

  lemma Regrouped(a: string, b: string, c: string, d: string)
    ensures a + b + c + d == a + (b + (c + d))
    ensures a + (b + c) + d == a + (b + (c + d))
  {}

  lemma SetRoundTrip(r: Requirement, word: string, t: string)
    requires ValidRequirement(r) && IsSet(r) && word == if r.op.In? then "in" else "notin"
    ensures ParseSetOperator(r.key, word + (" (" + (Join(r.values) + (")" + t)))) == Some((TrimRequirement(r), t))
  {
    var list := Join(r.values) + (")" + t);
    var after := " (" + list;
    IdentifierStops(word, after);
    assert after[1..] == "(" + list && ("(" + list)[1..] == list;
    assert Skip(after) == "(" + list;
    forall i | 0 <= i < |r.values| ensures AllIdent(r.values[i]) { ValidValueIsIdent(r.values[i]); }
    ItemsRoundTrip(r.values, t);
  }

  lemma ValueRoundTrip(key: string, op: Operator, v: string, t: string)
    requires AllIdent(v) && Stops(t)
    ensures ParseSingleValue(key, op, v + t) == (Requirement(key, op, [v]), t)
  {
    if v != "" { assert (v + t)[0] == v[0] && IsIdent(v[0]); } else { assert v + t == t; }
    assert Skip(v + t) == v + t;
    SpanStops(v, t);
  }

  // A key at the start of a requirement.
  lemma KeyThen(key: string, u: string)
    requires key != "" && AllIdent(key) && (u == "" || !IsIdent(u[0]))
    ensures ParseRequirement(key + u) == ParseCondition(key, Skip(u))
  {
    assert (key + u)[0] == key[0] && IsIdent(key[0]);
    assert Skip(key + u) == key + u;
    IdentifierStops(key, u);
  }

  lemma NotExistsRoundTrip(key: string, t: string)
    requires key != "" && AllIdent(key) && (t == "" || t[0] == ',')
    ensures ParseRequirement("!" + (key + t)) == Some((Requirement(key, NotExists, []), t))
  {
    var s := "!" + (key + t);
    assert s[1] == key[0] && IsIdent(key[0]);
    assert s[1..] == key + t && Skip(s) == s;
    IdentifierStops(key, t);
  }

  lemma EqualsRoundTrip(key: string, v: string, t: string)
    requires key != "" && AllIdent(key) && AllIdent(v) && (t == "" || t[0] == ',')
    ensures ParseRequirement(key + ("=" + (v + t))) == Some((Requirement(key, Equals, [v]), t))
  {
    var u := "=" + (v + t);
    KeyThen(key, u);
    assert Skip(u) == u && u[1..] == v + t;
    assert |u| > 1 ==> u[1] == (v + t)[0] == if v == "" then t[0] else v[0];
    ValueRoundTrip(key, Equals, v, t);
  }

  lemma NotEqualsRoundTrip(key: string, v: string, t: string)
    requires key != "" && AllIdent(key) && AllIdent(v) && (t == "" || t[0] == ',')
    ensures ParseRequirement(key + ("!=" + (v + t))) == Some((Requirement(key, NotEquals, [v]), t))
  {
    var u := "!=" + (v + t);
    KeyThen(key, u);
    assert Skip(u) == u && u[2..] == v + t;
    ValueRoundTrip(key, NotEquals, v, t);
  }

  lemma SetRequirementRoundTrip(r: Requirement, word: string, t: string)
    requires ValidRequirement(r) && IsSet(r) && word == if r.op.In? then "in" else "notin"
    requires r.key != "" && AllIdent(r.key)
    ensures ParseRequirement(r.key + (" " + (word + (" (" + (Join(r.values) + (")" + t))))))
      == Some((TrimRequirement(r), t))
  {
    var rest := word + (" (" + (Join(r.values) + (")" + t)));
    KeyThen(r.key, " " + rest);
    assert (" " + rest)[1..] == rest && rest[0] == word[0];
    assert Skip(rest) == rest && Skip(" " + rest) == rest;
    SetRoundTrip(r, word, t);
  }

  // A printed requirement and what follows it, grouped as the parser reads it.
  function PrintThen(r: Requirement, t: string): string {
    match r.op
    case Exists => r.key + t
    case NotExists => "!" + (r.key + t)
    case Equals => r.key + ("=" + (FirstValue(r.values) + t))
    case NotEquals => r.key + ("!=" + (FirstValue(r.values) + t))
    case In => r.key + (" " + ("in" + (" (" + (Join(r.values) + (")" + t)))))
    case NotIn => r.key + (" " + ("notin" + (" (" + (Join(r.values) + (")" + t)))))
  }

  lemma PrintedThen(r: Requirement, t: string)
    ensures PrintRequirement(r) + t == PrintThen(r, t)
  {
  }

  lemma RequirementRoundTrip(r: Requirement, t: string)
    requires ValidRequirement(r) && (t == "" || t[0] == ',')
    ensures ParseRequirement(PrintThen(r, t)) == Some((TrimRequirement(r), t))
  {
    ValidKeyIsIdent(r.key);
    match r.op {
      case Exists => KeyThen(r.key, t);
      case NotExists => NotExistsRoundTrip(r.key, t);
      case Equals =>
        ValidValueIsIdent(r.values[0]);
        EqualsRoundTrip(r.key, r.values[0], t);
        assert r.values == [r.values[0]];
      case NotEquals =>
        ValidValueIsIdent(r.values[0]);
        NotEqualsRoundTrip(r.key, r.values[0], t);
        assert r.values == [r.values[0]];
      case In => SetRequirementRoundTrip(r, "in", t);
      case NotIn => SetRequirementRoundTrip(r, "notin", t);
    }
  }

  lemma PrintedStart(r: Requirement)
    requires ValidRequirement(r)
    ensures PrintRequirement(r) != "" && !IsBlank(PrintRequirement(r)[0])
  {
    ValidKeyIsIdent(r.key);
  }

  lemma LastRequirement(n: nat, r: Requirement)
    requires n < MAX_REQUIREMENTS && ValidRequirement(r)
    ensures ParseRequirements(n, PrintRequirement(r)) == Some([TrimRequirement(r)])
  {
    PrintedThen(r, "");
    assert PrintRequirement(r) + "" == PrintRequirement(r);
    RequirementRoundTrip(r, "");
  }

  lemma RequirementThenComma(n: nat, r: Requirement, rest: string)
    requires n < MAX_REQUIREMENTS && ValidRequirement(r) && rest != "" && !IsBlank(rest[0])
    requires ParseRequirements(n + 1, rest).Some?
    ensures ParseRequirements(n, PrintRequirement(r) + ("," + rest))
         == Some([TrimRequirement(r)] + ParseRequirements(n + 1, rest).value)
  {
    var t := "," + rest;
    PrintedThen(r, t);
    RequirementRoundTrip(r, t);
    assert t[1..] == rest && Skip(t) == t && Skip(rest) == rest;
  }

  lemma {:induction false} RequirementsRoundTrip(n: nat, s: Selector)
    requires s != [] && n + |s| <= MAX_REQUIREMENTS && forall i | 0 <= i < |s| :: ValidRequirement(s[i])
    ensures ParseRequirements(n, Print(s)) == Some(TrimSelector(s))
    decreases |s|
  {
    if |s| == 1 {
      PrintOne(s);
      LastRequirement(n, s[0]);
    } else {
      RequirementsRoundTrip(n + 1, s[1..]);
      PrintStart(s[1..]);
      PrintCons(s);
      RequirementThenComma(n, s[0], Print(s[1..]));
    }
  }

  lemma PrintStart(s: Selector)
    requires s != [] && ValidRequirement(s[0])
    ensures Print(s) != "" && !IsBlank(Print(s)[0])
  {
    PrintedStart(s[0]);
    if |s| == 1 { PrintOne(s); } else { PrintCons(s); }
  }

  lemma PrintOne(s: Selector)
    requires |s| == 1
    ensures Print(s) == PrintRequirement(s[0]) && TrimSelector(s) == [TrimRequirement(s[0])]
  {
    assert Parts(s) == [PrintRequirement(s[0])];
  }

  lemma PrintCons(s: Selector)
    requires |s| > 1
    ensures Print(s) == PrintRequirement(s[0]) + ("," + Print(s[1..]))
    ensures TrimSelector(s) == [TrimRequirement(s[0])] + TrimSelector(s[1..])
  {
    JoinCons(PrintRequirement(s[0]), Parts(s[1..]));
  }

  lemma JoinCons(head: string, rest: seq<string>)
    requires rest != []
    ensures Join([head] + rest) == head + ("," + Join(rest))
  {
    assert ([head] + rest)[1..] == rest;
  }

  // The exact law. Printing and parsing a valid selector fails exactly when some
  // set requirement lists only the empty value; otherwise it returns the
  // selector with one trailing empty value dropped from every value list.
  lemma PrintParseRoundTrip(s: Selector)
    requires ValidSelector(s)
    ensures Parse(Print(s))
         == if exists i | 0 <= i < |s| :: IsSet(s[i]) && s[i].values == [""] then None else Some(TrimSelector(s))
  {
    if s != [] {
      RequirementsRoundTrip(0, s);
      PrintStart(s);
    }
    TrimmedSelectorIsValid(s);
  }

  lemma TrimmedSelectorIsValid(s: Selector)
    requires ValidSelector(s)
    ensures ValidSelector(TrimSelector(s)) <==> !exists i | 0 <= i < |s| :: IsSet(s[i]) && s[i].values == [""]
  {
    var t := TrimSelector(s);
    forall i | 0 <= i < |s| ensures ValidRequirement(t[i]) <==> !(IsSet(s[i]) && s[i].values == [""]) {
      TrimmedIsValid(s[i]);
    }
  }

  lemma TrimmedIsValid(r: Requirement)
    requires ValidRequirement(r)
    ensures ValidRequirement(TrimRequirement(r)) <==> !(IsSet(r) && r.values == [""])
  {
    if IsSet(r) && |r.values| > 1 {
      assert Trimmed(r.values) <= r.values;
    }
  }

  // So the round trip is the identity exactly when no value list ends in the
  // empty string.
  lemma RoundTripIsIdentity(s: Selector)
    requires ValidSelector(s)
    ensures Parse(Print(s)) == Some(s) <==> forall i | 0 <= i < |s| :: IsSet(s[i]) ==> !EndsEmpty(s[i].values)
  {
    PrintParseRoundTrip(s);
    var t := TrimSelector(s);
    if forall i | 0 <= i < |s| :: IsSet(s[i]) ==> !EndsEmpty(s[i].values) {
      forall i | 0 <= i < |s| ensures t[i] == s[i] {}
      assert t == s;
    } else {
      var i :| 0 <= i < |s| && IsSet(s[i]) && EndsEmpty(s[i].values);
      assert |t[i].values| < |s[i].values|;
      assert t != s;
    }
  }

  // The dropped value matters: the requirement then means something else,
  // unless the list holds another empty value.
  lemma TrimmingKeepsMeaning(r: Requirement)
    requires IsSet(r)
    ensures (forall labels :: Satisfies(TrimRequirement(r), labels) == Satisfies(r, labels))
       <==> !EndsEmpty(r.values) || "" in Trimmed(r.values)
  {
    var t := TrimRequirement(r);
    if EndsEmpty(r.values) {
      assert r.values == Trimmed(r.values) + [""];
      if "" !in Trimmed(r.values) {
        var labels := map[r.key := ""];
        assert Satisfies(t, labels) != Satisfies(r, labels);
      }
    }
  }

  // ---- whole selectors ----

  // Trimming changes what the requirement says of an empty label value.
  predicate LosesEmpty(r: Requirement) {
    IsSet(r) && EndsEmpty(r.values) && "" !in Trimmed(r.values)
  }

  // It changes nothing else.
  lemma TrimmingMatters(r: Requirement, labels: LabelMap)
    ensures Satisfies(TrimRequirement(r), labels) == Satisfies(r, labels)
       <==> !(LosesEmpty(r) && r.key in labels && labels[r.key] == "")
  {
    if IsSet(r) && EndsEmpty(r.values) {
      assert r.values == Trimmed(r.values) + [""];
    }
  }

  // Trimming makes one requirement fail on the labels, or one hold.
  predicate Falls(r: Requirement, labels: LabelMap) {
    LosesEmpty(r) && r.key in labels && labels[r.key] == "" && r.op.In?
  }

  predicate Rises(r: Requirement, labels: LabelMap) {
    LosesEmpty(r) && r.key in labels && labels[r.key] == "" && r.op.NotIn?
  }

  // For every selector and all labels: the verdict changes exactly when all the
  // untouched requirements hold and the touched ones are all of one kind.
  lemma TrimmingChangesVerdict(s: Selector, labels: LabelMap)
    ensures Matches(TrimSelector(s), labels) != Matches(s, labels)
       <==> && (forall i | 0 <= i < |s| && !Falls(s[i], labels) && !Rises(s[i], labels) :: Satisfies(s[i], labels))
            && ((exists i | 0 <= i < |s| :: Falls(s[i], labels)) != exists i | 0 <= i < |s| :: Rises(s[i], labels))
  {
    var t := TrimSelector(s);
    forall i | 0 <= i < |s| ensures Flips(s[i], t[i], labels) {
      TouchedFlips(s[i], labels);
    }
    JoinedVerdict(s, t, labels);
  }

  predicate Flips(r: Requirement, t: Requirement, labels: LabelMap) {
    && (Falls(r, labels) ==> Satisfies(r, labels) && !Satisfies(t, labels))
    && (Rises(r, labels) ==> !Satisfies(r, labels) && Satisfies(t, labels))
    && (!Falls(r, labels) && !Rises(r, labels) ==> Satisfies(r, labels) == Satisfies(t, labels))
  }

  lemma TouchedFlips(r: Requirement, labels: LabelMap)
    ensures Flips(r, TrimRequirement(r), labels)
  {
    TrimmingMatters(r, labels);
    if LosesEmpty(r) { assert r.values[|r.values| - 1] == ""; }
  }

  lemma JoinedVerdict(s: Selector, t: Selector, labels: LabelMap)
    requires |t| == |s| && forall i | 0 <= i < |s| :: Flips(s[i], t[i], labels)
    ensures Matches(t, labels) != Matches(s, labels)
       <==> && (forall i | 0 <= i < |s| && !Falls(s[i], labels) && !Rises(s[i], labels) :: Satisfies(s[i], labels))
            && ((exists i | 0 <= i < |s| :: Falls(s[i], labels)) != exists i | 0 <= i < |s| :: Rises(s[i], labels))
  {}

  // A label that satisfies a requirement, or none where its absence does.
  function Pick(r: Requirement): Option<string> {
    match r.op
    case Equals | In => if r.values == [] then None else Some(r.values[0])
    case Exists => Some("")
    case _ => None
  }

  ghost predicate DistinctKeys(s: Selector) {
    forall i, j | 0 <= i < j < |s| :: s[i].key != s[j].key
  }

  // Labels that give every requirement its pick, but leave out one key.
  lemma {:induction false} PickAll(s: Selector, but: string) returns (labels: LabelMap)
    requires DistinctKeys(s)
    ensures but !in labels
    ensures forall i | 0 <= i < |s| && s[i].key != but ::
      (s[i].key in labels <==> Pick(s[i]).Some?) && (s[i].key in labels ==> labels[s[i].key] == Pick(s[i]).value)
    ensures forall key | key in labels :: exists i | 0 <= i < |s| :: s[i].key == key
    decreases |s|
  {
    if s == [] {
      labels := map[];
    } else {
      var front, last := s[..|s| - 1], s[|s| - 1];
      labels := PickAll(front, but);
      assert forall i | 0 <= i < |front| :: front[i] == s[i];
      forall key | key in labels ensures exists i | 0 <= i < |s| :: s[i].key == key {
        var i :| 0 <= i < |front| && front[i].key == key;
        assert s[i].key == key;
      }
      assert last.key !in labels;
      if last.key != but && Pick(last).Some? { labels := labels[last.key := Pick(last).value]; }
    }
  }

  predicate Satisfiable(r: Requirement) {
    match r.op
    case Equals => |r.values| == 1
    case In => r.values != []
    case _ => true
  }

  // One requirement meets an empty label value, all others their picks.
  lemma OneMeetsEmpty(s: Selector, k: nat) returns (labels: LabelMap)
    requires DistinctKeys(s) && k < |s| && forall i | 0 <= i < |s| && i != k :: Satisfiable(s[i])
    ensures s[k].key in labels && labels[s[k].key] == ""
    ensures forall i | 0 <= i < |s| && i != k :: Satisfies(s[i], labels)
  {
    labels := PickAll(s, s[k].key);
    labels := labels[s[k].key := ""];
    forall i | 0 <= i < |s| && i != k ensures Satisfies(s[i], labels) {
      assert s[i].key != s[k].key;
    }
  }

  lemma {:induction false} SelectorKeepsMeaning(s: Selector)
    requires forall i | 0 <= i < |s| :: !LosesEmpty(s[i])
    ensures forall labels :: Matches(TrimSelector(s), labels) == Matches(s, labels)
  {
    forall labels, i | 0 <= i < |s| ensures Satisfies(TrimSelector(s)[i], labels) == Satisfies(s[i], labels) {
      TrimmingMatters(s[i], labels);
    }
  }

  lemma InChangesMeaning(s: Selector, k: nat)
    requires ValidSelector(s) && DistinctKeys(s) && k < |s| && LosesEmpty(s[k]) && s[k].op.In?
    ensures exists labels :: Matches(TrimSelector(s), labels) != Matches(s, labels)
  {
    var labels := OneMeetsEmpty(s, k);
    TrimmingMatters(s[k], labels);
    assert s[k].values[|s[k].values| - 1] == "";
    assert Matches(s, labels) && !Satisfies(TrimSelector(s)[k], labels);
  }

  lemma NotInChangesMeaning(s: Selector, k: nat)
    requires ValidSelector(s) && DistinctKeys(s) && k < |s| && LosesEmpty(s[k]) && s[k].op.NotIn?
    requires forall i | 0 <= i < |s| && s[i].op.In? :: !LosesEmpty(s[i])
    ensures exists labels :: Matches(TrimSelector(s), labels) != Matches(s, labels)
  {
    var t := TrimSelector(s);
    forall i | 0 <= i < |s| ensures Satisfiable(t[i]) && t[i].key == s[i].key {
      assert ValidRequirement(s[i]) && t[i] == TrimRequirement(s[i]);
    }
    var labels := OneMeetsEmpty(t, k);
    TrimmingMatters(s[k], labels);
    assert s[k].values[|s[k].values| - 1] == "";
    assert !Satisfies(s[k], labels) && Satisfies(t[k], labels) && Matches(t, labels);
  }

  // For a valid selector that names every key once, parsing its printed form
  // keeps what it matches if and only if every requirement keeps its meaning.
  lemma TrimmingKeepsSelectorMeaning(s: Selector)
    requires ValidSelector(s) && DistinctKeys(s)
    ensures (forall labels :: Matches(TrimSelector(s), labels) == Matches(s, labels))
       <==> forall i | 0 <= i < |s| :: !LosesEmpty(s[i])
  {
    if forall i | 0 <= i < |s| :: !LosesEmpty(s[i]) {
      SelectorKeepsMeaning(s);
    } else if exists i | 0 <= i < |s| :: LosesEmpty(s[i]) && s[i].op.In? {
      var i :| 0 <= i < |s| && LosesEmpty(s[i]) && s[i].op.In?;
      InChangesMeaning(s, i);
    } else {
      var i :| 0 <= i < |s| && LosesEmpty(s[i]);
      NotInChangesMeaning(s, i);
    }
  }
}
