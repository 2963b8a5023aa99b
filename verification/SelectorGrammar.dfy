// The selector language, apart from the parser: how a selector may be written,
// with blanks wherever they are allowed, and what each text means. The parser
// reads exactly these texts.
module SelectorGrammar {
  import opened Text
  import opened Labels
  import opened Selectors

  // ---- how selectors are written ----

  predicate Blank(s: string) {
    forall i | 0 <= i < |s| :: IsBlank(s[i])
  }

  // A value in a list, which may be empty, with the blanks around it.
  datatype Item = Item(before: string, value: string, after: string)

  // The end of a list: one more value, or blanks and no value.
  datatype Tail = Last(item: Item) | NoMore(blanks: string)

  datatype Sign = Single | Double | Unequal

  datatype Form =
    | Bare(key: string)
    | Negated(gap: string, key: string)
    | Compared(key: string, before: string, sign: Sign, after: string, value: string)
    | Listed(key: string, gap: string, negative: bool, open: string, items: seq<Item>, tail: Tail)

  datatype Clause = Clause(before: string, form: Form, after: string)

  predicate GoodItem(i: Item) {
    Blank(i.before) && AllIdent(i.value) && Blank(i.after)
  }

  predicate GoodTail(t: Tail) {
    match t
    case Last(item) => GoodItem(item) && item.value != ""
    case NoMore(blanks) => Blank(blanks)
  }

  predicate GoodKey(key: string) {
    key != "" && AllIdent(key)
  }

  predicate GoodForm(f: Form) {
    GoodKey(f.key) &&
    match f
    case Bare(_) => true
    case Negated(gap, _) => Blank(gap)
    case Compared(_, before, _, after, value) => Blank(before) && Blank(after) && AllIdent(value)
    case Listed(_, gap, _, open, items, tail) =>
      && gap != "" && Blank(gap) && Blank(open) && GoodTail(tail)
      && forall i | 0 <= i < |items| :: GoodItem(items[i])
  }

  predicate GoodClause(c: Clause) {
    Blank(c.before) && GoodForm(c.form) && Blank(c.after)
  }

  predicate GoodClauses(cs: seq<Clause>) {
    forall i | 0 <= i < |cs| :: GoodClause(cs[i])
  }

  // ---- the text, and what follows it ----

  function SignText(sign: Sign): string {
    match sign case Single => "=" case Double => "==" case Unequal => "!="
  }

  function Word(negative: bool): string {
    if negative then "notin" else "in"
  }

  function TailThen(tail: Tail, t: string): string {
    match tail
    case Last(i) => i.before + (i.value + (i.after + (")" + t)))
    case NoMore(blanks) => blanks + (")" + t)
  }

  function ItemsThen(items: seq<Item>, tail: Tail, t: string): string {
    if items == [] then TailThen(tail, t)
    else items[0].before + (items[0].value + (items[0].after + ("," + ItemsThen(items[1..], tail, t))))
  }

  function FormThen(f: Form, t: string): string {
    match f
    case Bare(key) => key + t
    case Negated(gap, key) => "!" + (gap + (key + t))
    case Compared(key, before, sign, after, value) => key + (before + (SignText(sign) + (after + (value + t))))
    case Listed(key, gap, negative, open, items, tail) =>
      key + (gap + (Word(negative) + (open + ("(" + ItemsThen(items, tail, t)))))
  }

  function Write(cs: seq<Clause>): string {
    if cs == [] then ""
    else cs[0].before + FormThen(cs[0].form, cs[0].after + if |cs| == 1 then "" else "," + Write(cs[1..]))
  }

  // ---- what it means ----

  function Values(items: seq<Item>, tail: Tail): seq<string> {
    if items == [] then if tail.Last? then [tail.item.value] else []
    else [items[0].value] + Values(items[1..], tail)
  }

  function Meaning(f: Form): Requirement {
    match f
    case Bare(key) => Requirement(key, Exists, [])
    case Negated(_, key) => Requirement(key, NotExists, [])
    case Compared(key, _, sign, _, value) => Requirement(key, if sign.Unequal? then NotEquals else Equals, [value])
    case Listed(key, _, negative, _, items, tail) =>
      Requirement(key, if negative then NotIn else In, Values(items, tail))
  }

  function Meanings(cs: seq<Clause>): (s: Selector)
    ensures |s| == |cs| && forall i | 0 <= i < |cs| :: s[i] == Meaning(cs[i].form)
  {
    if cs == [] then [] else [Meaning(cs[0].form)] + Meanings(cs[1..])
  }

  // ---- every such text is read ----

  lemma {:induction false} SkipBlanks(b: string, t: string)
    requires Blank(b)
    ensures Skip(b + t) == Skip(t)
    decreases |b|
  {
    if b == "" {
      assert b + t == t;
    } else {
      assert (b + t)[0] == b[0] && (b + t)[1..] == b[1..] + t;
      SkipBlanks(b[1..], t);
    }
  }

  // Where a word ends: at the end of the text, at a blank or at a sign.
  predicate NoIdent(t: string) {
    t == "" || !IsIdent(t[0])
  }

  lemma BlanksThen(b: string, t: string)
    requires Blank(b) && NoIdent(t)
    ensures NoIdent(b + t)
  {
    if b == "" { assert b + t == t; } else { assert (b + t)[0] == b[0]; }
  }

  // An item, its blanks, and the comma or parenthesis after them.
  lemma ItemIsRead(i: Item, close: string)
    requires GoodItem(i) && close != "" && (close[0] == ',' || (close[0] == ')' && i.value != ""))
    ensures var t := Skip(i.before + (i.value + (i.after + close)));
            && t != "" && t[0] != ')' && t[..Span(t)] == i.value && Skip(t[Span(t)..]) == close
  {
    var rest := i.after + close;
    SkipBlanks(i.before, i.value + rest);
    SkipBlanks(i.after, close);
    assert Skip(close) == close;
    if i.value == "" {
      assert i.value + rest == rest;
      assert Span(close) == 0 && close[0..] == close && close[..0] == "";
    } else {
      assert (i.value + rest)[0] == i.value[0] && IsIdent(i.value[0]);
      assert Skip(i.value + rest) == i.value + rest;
      BlanksThen(i.after, close);
      SpanStops(i.value, rest);
    }
  }

  lemma TailIsRead(tail: Tail, t: string)
    requires GoodTail(tail)
    ensures ParseItems(TailThen(tail, t)) == Some((Values([], tail), t))
  {
    var close := ")" + t;
    assert close[1..] == t;
    match tail
    case Last(i) => ItemIsRead(i, close);
    case NoMore(blanks) =>
      SkipBlanks(blanks, close);
      assert Skip(close) == close;
  }

  lemma {:induction false} ItemsAreRead(items: seq<Item>, tail: Tail, t: string)
    requires GoodTail(tail) && forall i | 0 <= i < |items| :: GoodItem(items[i])
    ensures ParseItems(ItemsThen(items, tail, t)) == Some((Values(items, tail), t))
    decreases |items|
  {
    if items == [] {
      TailIsRead(tail, t);
    } else {
      var rest := ItemsThen(items[1..], tail, t);
      ItemsAreRead(items[1..], tail, t);
      ItemIsRead(items[0], "," + rest);
      assert ("," + rest)[1..] == rest;
    }
  }

  // A key at the start of a requirement.
  lemma KeyIsRead(before: string, key: string, u: string)
    requires Blank(before) && GoodKey(key) && NoIdent(u)
    ensures ParseRequirement(before + (key + u)) == ParseCondition(key, Skip(u))
  {
    SkipBlanks(before, key + u);
    KeyThen(key, u);
    assert Skip(key + u) == key + u by { assert (key + u)[0] == key[0] && IsIdent(key[0]); }
  }

  // What is read of a text, and what is left of it but for blanks.
  ghost predicate ReadAs(s: string, r: Requirement, t: string) {
    var read := ParseRequirement(s);
    read.Some? && read.value.0 == r && Skip(read.value.1) == Skip(t)
  }

  // What follows a requirement: nothing or a comma, but for blanks.
  predicate Ends(t: string) {
    NoIdent(t) && (Skip(t) == "" || Skip(t)[0] == ',')
  }

  lemma NameIsRead(gap: string, key: string, t: string)
    requires Blank(gap) && GoodKey(key) && NoIdent(t)
    ensures ParseIdentifier(gap + (key + t)) == Some((key, t))
  {
    SkipBlanks(gap, key + t);
    IdentifierStops(key, t);
    assert (key + t)[0] == key[0] && IsIdent(key[0]);
    assert Skip(key + t) == key + t;
  }

  lemma NegatedIsRead(before: string, gap: string, key: string, t: string)
    requires Blank(before) && Blank(gap) && GoodKey(key) && Ends(t)
    ensures ReadAs(before + FormThen(Negated(gap, key), t), Requirement(key, NotExists, []), t)
  {
    var u := gap + (key + t);
    NameIsRead(gap, key, t);
    assert u[0] == if gap == "" then key[0] else gap[0];
    ExclamationIsRead(before, u);
  }

  lemma ExclamationIsRead(before: string, u: string)
    requires Blank(before) && u != "" && u[0] != '='
    ensures var key := ParseIdentifier(u);
            ParseRequirement(before + ("!" + u))
              == if key.None? then None else Some((Requirement(key.value.0, NotExists, []), key.value.1))
  {
    var s := "!" + u;
    SkipBlanks(before, s);
    assert s[0] == '!' && s[1] == u[0] && s[1..] == u && Skip(s) == s;
  }

  lemma ValueIsRead(key: string, op: Operator, after: string, value: string, t: string)
    requires Blank(after) && AllIdent(value) && Ends(t)
    ensures var read := ParseSingleValue(key, op, after + (value + t));
            read.0 == Requirement(key, op, [value]) && Skip(read.1) == Skip(t)
  {
    SkipBlanks(after, value + t);
    if value == "" {
      assert value + t == t;
      assert Span(Skip(t)) == 0;
      assert Skip(t)[..0] == "" && Skip(t)[0..] == Skip(t) && Skip(Skip(t)) == Skip(t);
    } else {
      assert (value + t)[0] == value[0] && IsIdent(value[0]);
      assert Skip(value + t) == value + t;
      SpanStops(value, t);
    }
  }

  lemma ComparedIsRead(key: string, sign: Sign, after: string, value: string, t: string)
    requires Blank(after) && AllIdent(value) && Ends(t)
    ensures var read := ParseCondition(key, SignText(sign) + (after + (value + t)));
            && read.Some? && Skip(read.value.1) == Skip(t)
            && read.value.0 == Requirement(key, if sign.Unequal? then NotEquals else Equals, [value])
  {
    var rest := after + (value + t);
    var u := SignText(sign) + rest;
    ValueIsRead(key, if sign.Unequal? then NotEquals else Equals, after, value, t);
    match sign
    case Single =>
      assert u[1..] == rest;
      NoSecondSign(after, value, t);
    case Double => assert u[1] == '=' && u[2..] == rest;
    case Unequal => assert u[1] == '=' && u[2..] == rest;
  }

  lemma NoSecondSign(after: string, value: string, t: string)
    requires Blank(after) && AllIdent(value) && Ends(t)
    ensures var rest := after + (value + t); rest == "" || rest[0] != '='
  {
    var rest := after + (value + t);
    if after != "" {
      assert rest[0] == after[0];
    } else if value != "" {
      assert rest[0] == value[0] && IsIdent(value[0]);
    } else {
      assert rest == t;
      if t != "" && !IsBlank(t[0]) { assert Skip(t) == t; }
    }
  }

  lemma BracketIsRead(open: string, items: seq<Item>, tail: Tail, t: string)
    requires Blank(open) && GoodTail(tail) && forall i | 0 <= i < |items| :: GoodItem(items[i])
    ensures var rest := open + ("(" + ItemsThen(items, tail, t));
            NoIdent(rest) && ParseValueSet(rest) == Some((Values(items, tail), t))
  {
    var list := ItemsThen(items, tail, t);
    var bracket := "(" + list;
    ItemsAreRead(items, tail, t);
    assert bracket[1..] == list && Skip(bracket) == bracket;
    SkipBlanks(open, bracket);
    BlanksThen(open, bracket);
  }

  lemma WordIsRead(key: string, negative: bool, word: string, rest: string)
    requires word == Word(negative) && NoIdent(rest) && ParseValueSet(rest).Some?
    ensures var (values, t) := ParseValueSet(rest).value;
            ParseSetOperator(key, word + rest) == Some((Requirement(key, if negative then NotIn else In, values), t))
  {
    IdentifierStops(word, rest);
  }

  lemma ListedIsRead(before: string, f: Form, word: string, t: string)
    requires Blank(before) && f.Listed? && GoodForm(f) && Ends(t) && word == Word(f.negative)
    ensures ReadAs(before + FormThen(f, t), Meaning(f), t)
  {
    var list := f.open + ("(" + ItemsThen(f.items, f.tail, t));
    var rest := word + list;
    BracketIsRead(f.open, f.items, f.tail, t);
    WordIsRead(f.key, f.negative, word, list);
    assert (f.gap + rest)[0] == f.gap[0];
    KeyIsRead(before, f.key, f.gap + rest);
    SkipBlanks(f.gap, rest);
    assert rest[0] == word[0] && Skip(rest) == rest;
  }

  lemma FormIsRead(before: string, f: Form, t: string)
    requires Blank(before) && GoodForm(f) && Ends(t)
    ensures ReadAs(before + FormThen(f, t), Meaning(f), t)
  {
    match f
    case Bare(key) => KeyIsRead(before, key, t);
    case Negated(gap, key) => NegatedIsRead(before, gap, key, t);
    case Compared(key, gap, sign, after, value) =>
      var rest := SignText(sign) + (after + (value + t));
      assert rest[0] == SignText(sign)[0] && Skip(rest) == rest;
      BlanksThen(gap, rest);
      KeyIsRead(before, key, gap + rest);
      SkipBlanks(gap, rest);
      ComparedIsRead(key, sign, after, value, t);
    case Listed(_, _, _, _, _, _) => ListedIsRead(before, f, Word(f.negative), t);
  }

  // The text behind a clause's form.
  function Behind(cs: seq<Clause>): string
    requires cs != []
  {
    cs[0].after + if |cs| == 1 then "" else "," + Write(cs[1..])
  }

  lemma BehindEnds(cs: seq<Clause>)
    requires cs != [] && Blank(cs[0].after)
    ensures Ends(Behind(cs))
    ensures Skip(Behind(cs)) == if |cs| == 1 then "" else "," + Write(cs[1..])
  {
    var rest := if |cs| == 1 then "" else "," + Write(cs[1..]);
    BlanksThen(cs[0].after, rest);
    SkipBlanks(cs[0].after, rest);
  }

  lemma WriteIsNotBlank(cs: seq<Clause>)
    requires cs != [] && GoodClause(cs[0])
    ensures Skip(Write(cs)) != ""
  {
    var f := cs[0].form;
    SkipBlanks(cs[0].before, FormThen(f, Behind(cs)));
    assert FormThen(f, Behind(cs))[0] == if f.Negated? then '!' else f.key[0];
  }

  // The blanks before a requirement are skipped whoever skips them.
  lemma SkippedReadsAlike(n: nat, s: string)
    ensures ParseRequirements(n, Skip(s)) == ParseRequirements(n, s)
  {
    assert Skip(Skip(s)) == Skip(s);
    assert ParseRequirement(Skip(s)) == ParseRequirement(s);
  }

  lemma ClauseThenMore(n: nat, cs: seq<Clause>)
    requires n < 32 && |cs| > 1 && GoodClauses(cs)
    ensures var more := ParseRequirements(n + 1, Write(cs[1..]));
            ParseRequirements(n, Write(cs))
              == if more.None? then None else Some([Meaning(cs[0].form)] + more.value)
  {
    var t, rest := Behind(cs), Write(cs[1..]);
    assert GoodClause(cs[0]) && GoodClause(cs[1]);
    BehindEnds(cs);
    FormIsRead(cs[0].before, cs[0].form, t);
    assert ("," + rest)[1..] == rest;
    WriteIsNotBlank(cs[1..]);
    SkippedReadsAlike(n + 1, rest);
  }

  lemma LastClause(n: nat, cs: seq<Clause>)
    requires n < 32 && |cs| == 1 && GoodClauses(cs)
    ensures ParseRequirements(n, Write(cs)) == Some([Meaning(cs[0].form)])
  {
    assert GoodClause(cs[0]);
    BehindEnds(cs);
    FormIsRead(cs[0].before, cs[0].form, Behind(cs));
  }

  lemma GoodRest(cs: seq<Clause>)
    requires cs != [] && GoodClauses(cs)
    ensures GoodClauses(cs[1..])
  {}

  function UpToMaximum(n: nat, s: Selector): Option<Selector> {
    if n + |s| <= 32 then Some(s) else None
  }

  lemma OneMoreUpToMaximum(n: nat, cs: seq<Clause>)
    requires cs != []
    ensures var more := UpToMaximum(n + 1, Meanings(cs[1..]));
            UpToMaximum(n, Meanings(cs)) == if more.None? then None else Some([Meaning(cs[0].form)] + more.value)
  {}

  // Up to 32 clauses are read as what they mean, and more are refused.
  lemma {:induction false} ClausesAreRead(n: nat, cs: seq<Clause>)
    requires n <= 32 && cs != [] && GoodClauses(cs)
    ensures ParseRequirements(n, Write(cs)) == UpToMaximum(n, Meanings(cs))
    decreases |cs|
  {
    if n == 32 {
    } else if |cs| == 1 {
      LastClause(n, cs);
      assert Meanings(cs) == [Meaning(cs[0].form)];
    } else {
      GoodRest(cs);
      ClausesAreRead(n + 1, cs[1..]);
      ClauseThenMore(n, cs);
      OneMoreUpToMaximum(n, cs);
    }
  }

  // So blanks around keys, signs, values, parentheses and commas say nothing,
  // and neither does the doubling of the equals sign: the parser's verdict
  // depends on what the text means.
  lemma WrittenIsRead(cs: seq<Clause>)
    requires cs != [] && GoodClauses(cs)
    ensures Parse(Write(cs)) == if ValidSelector(Meanings(cs)) then Some(Meanings(cs)) else None
  {
    WriteIsNotBlank(cs);
    ClausesAreRead(0, cs);
    SkippedReadsAlike(0, Write(cs));
  }

  lemma BlankIsRead(s: string)
    requires Blank(s)
    ensures Parse(s) == Some([])
  {
    SkipBlanks(s, "");
    assert s + "" == s;
  }

  // ---- nothing else is read ----

  lemma {:induction false} SkippedAreBlank(s: string) returns (b: string)
    ensures Blank(b) && s == b + Skip(s)
    decreases |s|
  {
    b := "";
    if s != "" && IsBlank(s[0]) {
      b := SkippedAreBlank(s[1..]);
      b := [s[0]] + b;
      assert s == [s[0]] + s[1..];
    }
  }

  // A value as it was written, and the comma or parenthesis behind it.
  lemma ItemWasWritten(s: string) returns (item: Item, close: string)
    requires Skip(s) != "" && Skip(s)[0] != ')'
    ensures var t := Skip(s);
            GoodItem(item) && item.value == t[..Span(t)] && close == Skip(t[Span(t)..])
    ensures s == item.before + (item.value + (item.after + close))
    ensures item.value == "" ==> close == Skip(s)
  {
    var t := Skip(s);
    var value, u := t[..Span(t)], t[Span(t)..];
    var before := SkippedAreBlank(s);
    var after := SkippedAreBlank(u);
    item, close := Item(before, value, after), Skip(u);
    FirstWord(t);
  }

  lemma FirstWord(t: string)
    requires Skip(t) == t
    ensures t == t[..Span(t)] + t[Span(t)..] && AllIdent(t[..Span(t)])
    ensures t[..Span(t)] == "" ==> Skip(t[Span(t)..]) == t
  {
    if t[..Span(t)] == "" { assert t[Span(t)..] == t; }
  }

  lemma {:induction false} ItemsWereWritten(s: string) returns (items: seq<Item>, tail: Tail)
    requires ParseItems(s).Some?
    ensures GoodTail(tail) && forall i | 0 <= i < |items| :: GoodItem(items[i])
    ensures s == ItemsThen(items, tail, ParseItems(s).value.1) && Values(items, tail) == ParseItems(s).value.0
    decreases |s|
  {
    if Skip(s)[0] == ')' {
      var blanks := SkippedAreBlank(s);
      assert Skip(s) == ")" + Skip(s)[1..];
      return [], NoMore(blanks);
    }
    var item, close := ItemWasWritten(s);
    if close[0] == ')' {
      assert close == ")" + close[1..];
      return [], Last(item);
    }
    assert close == "," + close[1..];
    items, tail := ItemsWereWritten(close[1..]);
    assert ([item] + items)[1..] == items;
    items := [item] + items;
  }

  // A requirement as it was written, and the text behind it.
  ghost predicate WrittenAs(s: string, before: string, f: Form, rest: string)
    requires ParseRequirement(s).Some?
  {
    && Blank(before) && GoodForm(f) && s == before + FormThen(f, rest)
    && Meaning(f) == ParseRequirement(s).value.0 && Skip(rest) == Skip(ParseRequirement(s).value.1)
  }

  lemma KeyWasWritten(t: string)
    requires ParseIdentifier(t).Some? && Skip(t) == t
    ensures var (key, u) := ParseIdentifier(t).value; GoodKey(key) && t == key + u && NoIdent(u)
  {}

  lemma NameWasWritten(s: string) returns (gap: string)
    requires ParseIdentifier(s).Some?
    ensures var (key, u) := ParseIdentifier(s).value;
            Blank(gap) && GoodKey(key) && s == gap + (key + u)
  {
    gap := SkippedAreBlank(s);
    var name := Skip(s);
    assert ParseIdentifier(name) == ParseIdentifier(s);
    KeyWasWritten(name);
  }

  lemma NegatedWasWritten(s: string) returns (before: string, f: Form, rest: string)
    requires ParseRequirement(s).Some? && Skip(s) != "" && Skip(s)[0] == '!'
    ensures WrittenAs(s, before, f, rest)
  {
    before := SkippedAreBlank(s);
    var t := Skip(s);
    assert t == "!" + t[1..];
    var gap := NameWasWritten(t[1..]);
    var (key, u) := ParseIdentifier(t[1..]).value;
    f, rest := Negated(gap, key), u;
  }

  lemma ValueWasWritten(s: string) returns (after: string)
    ensures var t := Skip(s);
            Blank(after) && AllIdent(t[..Span(t)]) && s == after + (t[..Span(t)] + t[Span(t)..])
  {
    after := SkippedAreBlank(s);
  }

  // What the condition's text was, from the first sign or word on.
  lemma ComparedWasWritten(key: string, gap: string, u: string) returns (f: Form, rest: string)
    requires GoodKey(key) && Blank(gap) && ParseCondition(key, u).Some? && u != "" && (u[0] == '=' || u[0] == '!')
    ensures GoodForm(f) && f.Compared? && Meaning(f) == ParseCondition(key, u).value.0
    ensures FormThen(f, rest) == key + (gap + u) && rest == ParseCondition(key, u).value.1
  {
    var sign := if u[0] == '!' then Unequal else if |u| > 1 && u[1] == '=' then Double else Single;
    var text := u[|SignText(sign)|..];
    assert u == SignText(sign) + text;
    var after := ValueWasWritten(text);
    var t := Skip(text);
    f, rest := Compared(key, gap, sign, after, t[..Span(t)]), t[Span(t)..];
  }

  lemma ListWasWritten(list: string) returns (open: string, items: seq<Item>, tail: Tail)
    requires ParseValueSet(list).Some?
    ensures Blank(open) && GoodTail(tail) && forall i | 0 <= i < |items| :: GoodItem(items[i])
    ensures var (values, rest) := ParseValueSet(list).value;
            list == open + ("(" + ItemsThen(items, tail, rest)) && Values(items, tail) == values
  {
    open := SkippedAreBlank(list);
    var bracket := Skip(list);
    assert bracket == "(" + bracket[1..];
    items, tail := ItemsWereWritten(bracket[1..]);
  }

  lemma ListedWasWritten(key: string, gap: string, u: string) returns (f: Form, rest: string)
    requires GoodKey(key) && gap != "" && Blank(gap) && Skip(u) == u && ParseSetOperator(key, u).Some?
    ensures GoodForm(f) && f.Listed? && Meaning(f) == ParseSetOperator(key, u).value.0
    ensures FormThen(f, rest) == key + (gap + u) && rest == ParseSetOperator(key, u).value.1
  {
    var (word, list) := ParseIdentifier(u).value;
    KeyWasWritten(u);
    var open, items, tail := ListWasWritten(list);
    var negative := word != "in";
    assert word == Word(negative);
    f, rest := Listed(key, gap, negative, open, items, tail), ParseValueSet(list).value.1;
  }

  lemma KeyedWasWritten(s: string) returns (before: string, f: Form, rest: string)
    requires ParseRequirement(s).Some? && Skip(s) != "" && Skip(s)[0] != '!'
    ensures WrittenAs(s, before, f, rest)
  {
    before := SkippedAreBlank(s);
    var t := Skip(s);
    var (key, behind) := ParseIdentifier(t).value;
    KeyWasWritten(t);
    var gap := SkippedAreBlank(behind);
    var u := Skip(behind);
    if u == "" || u[0] == ',' {
      f, rest := Bare(key), behind;
    } else if u[0] == '=' || u[0] == '!' {
      f, rest := ComparedWasWritten(key, gap, u);
    } else {
      assert gap + u == behind;
      f, rest := ListedWasWritten(key, gap, u);
    }
  }

  lemma RequirementWasWritten(s: string) returns (before: string, f: Form, rest: string)
    requires ParseRequirement(s).Some?
    ensures WrittenAs(s, before, f, rest)
  {
    var t := Skip(s);
    if t[0] == '!' {
      before, f, rest := NegatedWasWritten(s);
    } else {
      before, f, rest := KeyedWasWritten(s);
    }
  }

  // The first clause, and the rest of the text from the comma on, if any.
  lemma ClauseWasWritten(n: nat, s: string) returns (c: Clause, t: string)
    requires ParseRequirements(n, s).Some?
    ensures n < MAX_REQUIREMENTS && GoodClause(c) && s == c.before + FormThen(c.form, c.after + t)
    ensures t == "" ==> ParseRequirements(n, s) == Some([Meaning(c.form)])
    ensures t != "" ==> t == "," + t[1..] && ParseRequirements(n + 1, t[1..]).Some?
    ensures t != "" ==> ParseRequirements(n, s) == Some([Meaning(c.form)] + ParseRequirements(n + 1, t[1..]).value)
  {
    var before, f, rest := RequirementWasWritten(s);
    var after := SkippedAreBlank(rest);
    c, t := Clause(before, f, after), Skip(rest);
    if t != "" { SkippedReadsAlike(n + 1, t[1..]); }
  }

  lemma WriteCons(c: Clause, more: seq<Clause>)
    requires GoodClause(c) && GoodClauses(more)
    ensures GoodClauses([c] + more) && Meanings([c] + more) == [Meaning(c.form)] + Meanings(more)
    ensures Write([c] + more) == c.before + FormThen(c.form, c.after + if more == [] then "" else "," + Write(more))
  {
    assert ([c] + more)[1..] == more;
  }

  lemma {:induction false} ClausesWereWritten(n: nat, s: string) returns (cs: seq<Clause>)
    requires ParseRequirements(n, s).Some?
    ensures cs != [] && GoodClauses(cs) && s == Write(cs) && Meanings(cs) == ParseRequirements(n, s).value
    decreases MAX_REQUIREMENTS - n
  {
    var c, t := ClauseWasWritten(n, s);
    cs := [];
    if t != "" { cs := ClausesWereWritten(n + 1, t[1..]); }
    WriteCons(c, cs);
    cs := [c] + cs;
  }

  // Every text the parser takes is blank or the writing of some clauses, and
  // what it returns is what they mean.
  lemma ReadWasWritten(s: string) returns (cs: seq<Clause>)
    requires Parse(s).Some?
    ensures GoodClauses(cs) && Meanings(cs) == Parse(s).value
    ensures if cs == [] then Blank(s) else s == Write(cs)
  {
    if Skip(s) == "" {
      var b := SkippedAreBlank(s);
      assert b == s;
      cs := [];
    } else {
      SkippedReadsAlike(0, s);
      cs := ClausesWereWritten(0, s);
    }
  }

  // ---- what that says of particular texts ----

  // Two writings of one selector are read alike, whatever blanks they hold and
  // whichever equals sign they use.
  lemma SameMeaningReadsAlike(cs: seq<Clause>, ds: seq<Clause>)
    requires cs != [] && ds != [] && GoodClauses(cs) && GoodClauses(ds) && Meanings(cs) == Meanings(ds)
    ensures Parse(Write(cs)) == Parse(Write(ds))
  {
    WrittenIsRead(cs);
    WrittenIsRead(ds);
  }

  lemma SignIsRead(key: string, sign: Sign, v: string)
    requires ValidKey(key) && ValidValue(v)
    ensures Parse(key + (SignText(sign) + v))
         == Some([Requirement(key, if sign.Unequal? then NotEquals else Equals, [v])])
  {
    var cs := [Clause("", Compared(key, "", sign, "", v), "")];
    ValidKeyIsIdent(key);
    ValidValueIsIdent(v);
    WrittenIsRead(cs);
    assert "" + "" == "" && v + "" == v && "" + v == v && "" + (SignText(sign) + v) == SignText(sign) + v;
    assert Write(cs) == key + (SignText(sign) + v);
    assert Meanings(cs) == [Meaning(cs[0].form)];
  }

  // Both equals signs ask for the value, and the third for any other.
  lemma SignsAreRead(key: string, v: string)
    requires ValidKey(key) && ValidValue(v)
    ensures Parse(key + ("=" + v)) == Some([Requirement(key, Equals, [v])])
    ensures Parse(key + ("==" + v)) == Some([Requirement(key, Equals, [v])])
    ensures Parse(key + ("!=" + v)) == Some([Requirement(key, NotEquals, [v])])
  {
    SignIsRead(key, Single, v);
    SignIsRead(key, Double, v);
    SignIsRead(key, Unequal, v);
  }

  // More than 32 requirements are refused, however they are written.
  lemma TooManyAreRefused(cs: seq<Clause>)
    requires GoodClauses(cs) && |cs| > 32
    ensures Parse(Write(cs)) == None
  {
    WriteIsNotBlank(cs);
    ClausesAreRead(0, cs);
    SkippedReadsAlike(0, Write(cs));
  }

  lemma FirstIsRefused(s: string)
    requires Skip(s) != "" && ParseRequirement(s) == None
    ensures Parse(s) == None
  {
    SkippedReadsAlike(0, s);
  }

  lemma WordIsRefused(key: string, word: string, rest: string)
    requires GoodKey(word) && NoIdent(rest)
    requires (word != "in" && word != "notin") || Skip(rest) == "" || Skip(rest)[0] != '('
    ensures Skip(word + rest) == word + rest && ParseSetOperator(key, word + rest) == None
  {
    assert (word + rest)[0] == word[0] && IsIdent(word[0]);
    IdentifierStops(word, rest);
  }

  lemma ConditionIsRefused(before: string, key: string, gap: string, u: string)
    requires Blank(before) && GoodKey(key) && gap != "" && Blank(gap)
    requires u != "" && IsIdent(u[0]) && ParseSetOperator(key, u) == None
    ensures Parse(before + (key + (gap + u))) == None
  {
    var t := gap + u;
    assert Skip(u) == u && t[0] == gap[0];
    SkipBlanks(gap, u);
    KeyIsRead(before, key, t);
    SkipBlanks(before, key + t);
    assert (key + t)[0] == key[0] && IsIdent(key[0]);
    FirstIsRefused(before + (key + t));
  }

  // After a key, a word that is no operator is refused, and so is an operator
  // without its list.
  lemma OtherWordsAreRefused(before: string, key: string, gap: string, word: string, rest: string)
    requires Blank(before) && GoodKey(key) && gap != "" && Blank(gap) && GoodKey(word) && NoIdent(rest)
    requires (word != "in" && word != "notin") || Skip(rest) == "" || Skip(rest)[0] != '('
    ensures Parse(before + (key + (gap + (word + rest)))) == None
  {
    WordIsRefused(key, word, rest);
    assert (word + rest)[0] == word[0] && IsIdent(word[0]);
    ConditionIsRefused(before, key, gap, word + rest);
  }

  // ---- how every text ends ----

  // The last sign but for blanks is at k, and is not a comma.
  ghost predicate EndsAt(s: string, k: nat) {
    k < |s| && !IsBlank(s[k]) && s[k] != ',' && Blank(s[k + 1..])
  }

  ghost predicate EndsWell(s: string) {
    exists k :: EndsAt(s, k)
  }

  lemma EndsWellBehind(a: string, s: string)
    requires EndsWell(s)
    ensures EndsWell(a + s)
  {
    var k :| EndsAt(s, k);
    assert (a + s)[|a| + k + 1..] == s[k + 1..];
    assert EndsAt(a + s, |a| + k);
  }

  lemma EndsWellBefore(s: string, t: string)
    requires s != "" && !IsBlank(s[|s| - 1]) && s[|s| - 1] != ',' && (Blank(t) || EndsWell(t))
    ensures EndsWell(s + t)
  {
    if Blank(t) {
      assert (s + t)[|s|..] == t;
      assert EndsAt(s + t, |s| - 1);
    } else {
      EndsWellBehind(s, t);
    }
  }

  lemma WordEndsWell(word: string, t: string)
    requires GoodKey(word) && (Blank(t) || EndsWell(t))
    ensures EndsWell(word + t)
  {
    EndsWellBefore(word, t);
  }

  lemma {:induction false} ItemsEndWell(items: seq<Item>, tail: Tail, t: string)
    requires Blank(t) || EndsWell(t)
    ensures EndsWell(ItemsThen(items, tail, t))
    decreases |items|
  {
    if items != [] {
      var i, rest := items[0], "," + ItemsThen(items[1..], tail, t);
      ItemsEndWell(items[1..], tail, t);
      EndsWellBehind(",", ItemsThen(items[1..], tail, t));
      ItemEndsWell(i, rest);
    } else {
      EndsWellBefore(")", t);
      if tail.Last? { ItemEndsWell(tail.item, ")" + t); } else { EndsWellBehind(tail.blanks, ")" + t); }
    }
  }

  lemma ItemEndsWell(i: Item, rest: string)
    requires EndsWell(rest)
    ensures EndsWell(i.before + (i.value + (i.after + rest)))
  {
    EndsWellBehind(i.after, rest);
    EndsWellBehind(i.value, i.after + rest);
    EndsWellBehind(i.before, i.value + (i.after + rest));
  }

  lemma ComparedEndsWell(sign: Sign, after: string, value: string, t: string)
    requires Blank(after) && AllIdent(value) && (Blank(t) || EndsWell(t))
    ensures EndsWell(SignText(sign) + (after + (value + t)))
  {
    if value != "" {
      WordEndsWell(value, t);
    } else {
      assert value + t == t;
    }
    if EndsWell(value + t) { EndsWellBehind(after, value + t); } else { assert Blank(after + (value + t)); }
    EndsWellBefore(SignText(sign), after + (value + t));
  }

  lemma FormEndsWell(f: Form, t: string)
    requires GoodForm(f) && (Blank(t) || EndsWell(t))
    ensures EndsWell(FormThen(f, t))
  {
    match f
    case Bare(key) => WordEndsWell(key, t);
    case Negated(gap, key) =>
      WordEndsWell(key, t);
      EndsWellBehind(gap, key + t);
      EndsWellBehind("!", gap + (key + t));
    case Compared(key, before, sign, after, value) =>
      var rest := SignText(sign) + (after + (value + t));
      ComparedEndsWell(sign, after, value, t);
      EndsWellBehind(before, rest);
      EndsWellBehind(key, before + rest);
    case Listed(key, gap, negative, open, items, tail) =>
      var list := ItemsThen(items, tail, t);
      ItemsEndWell(items, tail, t);
      EndsWellBehind("(", list);
      EndsWellBehind(open, "(" + list);
      EndsWellBehind(Word(negative), open + ("(" + list));
      EndsWellBehind(gap, Word(negative) + (open + ("(" + list)));
      EndsWellBehind(key, gap + (Word(negative) + (open + ("(" + list))));
  }

  lemma {:induction false} WriteEndsWell(cs: seq<Clause>)
    requires cs != [] && GoodClauses(cs)
    ensures EndsWell(Write(cs))
    decreases |cs|
  {
    var c := cs[0];
    assert GoodClause(c);
    if |cs| > 1 {
      WriteEndsWell(cs[1..]);
      EndsWellBehind(",", Write(cs[1..]));
      EndsWellBehind(c.after, "," + Write(cs[1..]));
    } else {
      assert Behind(cs) == c.after;
    }
    FormEndsWell(c.form, Behind(cs));
    EndsWellBehind(c.before, FormThen(c.form, Behind(cs)));
  }

  lemma CommaEndsNothing(s: string, b: string)
    requires Blank(b)
    ensures !EndsWell(s + ("," + b)) && !Blank(s + ("," + b))
  {
    var text := s + ("," + b);
    assert text[|s|] == ',';
    forall k: nat ensures !EndsAt(text, k) {
      if k < |s| { assert text[k + 1..][|s| - k - 1] == text[|s|]; }
      if |s| < k < |text| { assert text[k] == b[k - |s| - 1]; }
    }
  }

  lemma ReadEndsWell(s: string)
    requires Parse(s).Some?
    ensures EndsWell(s) || Blank(s)
  {
    var cs := ReadWasWritten(s);
    if cs != [] { WriteEndsWell(cs); }
  }

  // So a text that ends in a comma, but for blanks, is refused, whatever comes
  // before the comma.
  lemma TrailingCommaIsRefused(s: string, b: string)
    requires Blank(b)
    ensures Parse(s + ("," + b)) == None
  {
    CommaEndsNothing(s, b);
    if Parse(s + ("," + b)).Some? { ReadEndsWell(s + ("," + b)); }
  }

  // ---- parentheses ----

  // Every opening parenthesis has a closing one behind it.
  ghost predicate Closed(s: string) {
    forall i | 0 <= i < |s| && s[i] == '(' :: ')' in s[i..]
  }

  lemma ClosedBehind(a: string, s: string)
    requires '(' !in a && Closed(s)
    ensures Closed(a + s)
  {
    var text := a + s;
    assert forall i | 0 <= i < |a| :: text[i] == a[i];
    forall i | |a| <= i < |text| && text[i] == '(' ensures ')' in text[i..] {
      assert text[i..] == s[i - |a|..] && s[i - |a|] == '(';
    }
  }

  lemma BracketIsClosed(list: string)
    requires Closed(list) && ')' in list
    ensures Closed("(" + list)
  {
    var text := "(" + list;
    forall i | 0 <= i < |text| && text[i] == '(' ensures ')' in text[i..] {
      if i == 0 {
        assert text[0..] == text && ')' in text;
      } else {
        assert text[i..] == list[i - 1..] && list[i - 1] == '(';
      }
    }
  }

  lemma {:induction false} ItemsAreClosed(items: seq<Item>, tail: Tail, t: string)
    requires Closed(t) && GoodTail(tail) && forall i | 0 <= i < |items| :: GoodItem(items[i])
    ensures Closed(ItemsThen(items, tail, t)) && ')' in ItemsThen(items, tail, t)
    decreases |items|
  {
    if items != [] {
      var rest := ItemsThen(items[1..], tail, t);
      ItemsAreClosed(items[1..], tail, t);
      ClosedBehind(",", rest);
      ItemIsClosed(items[0], "," + rest);
    } else {
      ClosedBehind(")", t);
      assert (")" + t)[0] == ')';
      if tail.Last? { ItemIsClosed(tail.item, ")" + t); } else { ClosedBehind(tail.blanks, ")" + t); }
    }
  }

  lemma ItemIsClosed(i: Item, rest: string)
    requires GoodItem(i) && Closed(rest)
    ensures Closed(i.before + (i.value + (i.after + rest)))
  {
    ClosedBehind(i.after, rest);
    ClosedBehind(i.value, i.after + rest);
    ClosedBehind(i.before, i.value + (i.after + rest));
  }

  lemma FormIsClosed(f: Form, t: string)
    requires GoodForm(f) && Closed(t)
    ensures Closed(FormThen(f, t))
  {
    match f
    case Bare(key) => ClosedBehind(key, t);
    case Negated(gap, key) =>
      ClosedBehind(key, t);
      ClosedBehind(gap, key + t);
      ClosedBehind("!", gap + (key + t));
    case Compared(key, before, sign, after, value) =>
      ClosedBehind(value, t);
      ClosedBehind(after, value + t);
      ClosedBehind(SignText(sign), after + (value + t));
      ClosedBehind(before, SignText(sign) + (after + (value + t)));
      ClosedBehind(key, before + (SignText(sign) + (after + (value + t))));
    case Listed(key, gap, negative, open, items, tail) =>
      var list := ItemsThen(items, tail, t);
      ItemsAreClosed(items, tail, t);
      BracketIsClosed(list);
      ClosedBehind(open, "(" + list);
      ClosedBehind(Word(negative), open + ("(" + list));
      ClosedBehind(gap, Word(negative) + (open + ("(" + list)));
      ClosedBehind(key, gap + (Word(negative) + (open + ("(" + list))));
  }

  lemma {:induction false} WriteIsClosed(cs: seq<Clause>)
    requires GoodClauses(cs)
    ensures Closed(Write(cs))
    decreases |cs|
  {
    if cs != [] {
      var c := cs[0];
      assert GoodClause(c);
      if |cs| > 1 {
        WriteIsClosed(cs[1..]);
        ClosedBehind(",", Write(cs[1..]));
        ClosedBehind(c.after, "," + Write(cs[1..]));
      } else {
        assert Behind(cs) == c.after;
      }
      FormIsClosed(c.form, Behind(cs));
      ClosedBehind(c.before, FormThen(c.form, Behind(cs)));
    }
  }

  // A text with an opening parenthesis and no closing one behind it is refused.
  lemma OpenListIsRefused(s: string, i: nat)
    requires i < |s| && s[i] == '(' && ')' !in s[i..]
    ensures Parse(s) == None
  {
    if Parse(s).Some? {
      var cs := ReadWasWritten(s);
      WriteIsClosed(cs);
      assert false;
    }
  }
}
