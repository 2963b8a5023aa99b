// The hand-written selector parser: an object that walks its input once. Each
// method is proved to do what the grammar says of the input that is left, and
// to stop on every input because the rest of the input gets shorter.
module SelectorParser {
  import opened Text
  import opened Labels
  import S = Selectors
  import G = SelectorGrammar

  function Prepend<T>(front: seq<T>, more: Option<(seq<T>, string)>): Option<(seq<T>, string)> {
    if more.None? then None else Some((front + more.value.0, more.value.1))
  }

  lemma PrependNothing<T>(more: Option<(seq<T>, string)>)
    ensures Prepend([], more) == more
  {
    if more.Some? { assert [] + more.value.0 == more.value.0; }
  }

  lemma PrependInTurn<T>(front: seq<T>, xs: seq<T>, more: Option<(seq<T>, string)>)
    ensures Prepend(front + xs, more) == Prepend(front, Prepend(xs, more))
  {
    if more.Some? { assert front + xs + more.value.0 == front + (xs + more.value.0); }
  }

  // Requirements already read, and the ones still to come.
  function Then(front: S.Selector, more: Option<S.Selector>): Option<S.Selector> {
    if more.None? then None else Some(front + more.value)
  }

  lemma ThenNothing(more: Option<S.Selector>)
    ensures Then([], more) == more
  {
    if more.Some? { assert [] + more.value == more.value; }
  }

  lemma ThenOneMore(front: S.Selector, r: S.Requirement, more: Option<S.Selector>)
    ensures Then(front + [r], more) == Then(front, Then([r], more))
  {
    if more.Some? { assert front + [r] + more.value == front + ([r] + more.value); }
  }

  class Parser {
    const input: string
    var pos: nat

    constructor (input: string)
      ensures Valid() && Rest() == input && this.input == input
    {
      this.input, pos := input, 0;
    }

    ghost predicate Valid() reads this {
      pos <= |input|
    }

    ghost function Rest(): string
      requires Valid()
      reads this
    {
      input[pos..]
    }

    method SkipSpace()
      requires Valid()
      modifies this
      ensures Valid() && old(pos) <= pos && Rest() == S.Skip(old(Rest()))
    {
      while pos < |input| && (input[pos] == ' ' || input[pos] == '\t')
        invariant Valid() && old(pos) <= pos && S.Skip(Rest()) == S.Skip(old(Rest()))
        decreases |input| - pos
      {
        assert Rest()[1..] == input[pos + 1..];
        pos := pos + 1;
      }
    }

    method ParseValueToken() returns (value: string)
      requires Valid()
      modifies this
      ensures Valid() && old(pos) <= pos
      ensures value == old(Rest())[..S.Span(old(Rest()))] && Rest() == old(Rest())[S.Span(old(Rest()))..]
    {
      var start := pos;
      ghost var rest := Rest();
      while pos < |input| && IsIdent(input[pos])
        invariant Valid() && start <= pos && S.Span(rest) == pos - start + S.Span(Rest())
        decreases |input| - pos
      {
        assert Rest()[1..] == input[pos + 1..];
        pos := pos + 1;
      }
      value := input[start..pos];
    }

    method ParseIdentifier() returns (name: Option<string>)
      requires Valid()
      modifies this
      ensures Valid() && old(pos) <= pos
      ensures var spec := S.ParseIdentifier(old(Rest()));
              (name.Some? <==> spec.Some?) && (name.Some? ==> (name.value, Rest()) == spec.value)
    {
      SkipSpace();
      var start := pos;
      var value := ParseValueToken();
      name := if start == pos then None else Some(value);
    }

    // One turn of parseValueSet's loop: the closing parenthesis, or a value and
    // whether a comma follows it.
    method NextItem() returns (items: Option<seq<string>>, more: bool)
      requires Valid()
      modifies this
      ensures Valid() && old(pos) <= pos && (more ==> old(pos) < pos)
      ensures S.ParseItems(old(Rest()))
           == if items.None? then None
              else Prepend(items.value, if more then S.ParseItems(Rest()) else Some(([], Rest())))
    {
      items, more := None, false;
      SkipSpace();
      if pos >= |input| {
        return;
      }
      assert S.Skip(Rest()) == Rest() && Rest()[1..] == input[pos + 1..];
      if input[pos] == ')' {
        pos := pos + 1;
        PrependNothing<string>(Some(([], Rest())));
        return Some([]), false;
      }
      var value := ParseValueToken();
      SkipSpace();
      if pos >= |input| || (input[pos] != ',' && input[pos] != ')') {
        return;
      }
      assert Rest()[1..] == input[pos + 1..] && [value] + [] == [value];
      items, more := Some([value]), input[pos] == ',';
      pos := pos + 1;
    }

    method ParseItems() returns (values: Option<seq<string>>)
      requires Valid()
      modifies this
      ensures Valid() && old(pos) <= pos
      ensures var spec := S.ParseItems(old(Rest()));
              (values.Some? <==> spec.Some?) && (values.Some? ==> (values.value, Rest()) == spec.value)
    {
      ghost var spec := S.ParseItems(Rest());
      var found: seq<string> := [];
      var more := true;
      PrependNothing(spec);
      while more
        invariant Valid() && old(pos) <= pos
        invariant spec == Prepend(found, if more then S.ParseItems(Rest()) else Some(([], Rest())))
        decreases more, |input| - pos
      {
        var items;
        items, more := NextItem();
        if items.None? {
          return None;
        }
        PrependInTurn(found, items.value, if more then S.ParseItems(Rest()) else Some(([], Rest())));
        found := found + items.value;
      }
      assert found + [] == found;
      values := Some(found);
    }

    method ParseValueSet() returns (values: Option<seq<string>>)
      requires Valid()
      modifies this
      ensures Valid() && old(pos) <= pos
      ensures var spec := S.ParseValueSet(old(Rest()));
              (values.Some? <==> spec.Some?) && (values.Some? ==> (values.value, Rest()) == spec.value)
    {
      SkipSpace();
      if pos >= |input| || input[pos] != '(' {
        return None;
      }
      assert Rest()[1..] == input[pos + 1..];
      pos := pos + 1;
      values := ParseItems();
    }

    method ParseSetOperator(key: string) returns (r: Option<S.Requirement>)
      requires Valid()
      modifies this
      ensures Valid() && old(pos) <= pos
      ensures var spec := S.ParseSetOperator(key, old(Rest()));
              (r.Some? <==> spec.Some?) && (r.Some? ==> (r.value, Rest()) == spec.value)
    {
      var word := ParseIdentifier();
      if word.None? || (word.value != "in" && word.value != "notin") {
        return None;
      }
      var values := ParseValueSet();
      if values.None? {
        return None;
      }
      r := Some(S.Requirement(key, if word.value == "in" then S.In else S.NotIn, values.value));
    }

    method ParseSingleValue(key: string, op: S.Operator) returns (r: S.Requirement)
      requires Valid()
      modifies this
      ensures Valid() && old(pos) <= pos
      ensures (r, Rest()) == S.ParseSingleValue(key, op, old(Rest()))
    {
      SkipSpace();
      var value := ParseValueToken();
      r := S.Requirement(key, op, [value]);
    }

    // The part of parseRequirement after the key.
    method ParseCondition(key: string) returns (r: Option<S.Requirement>)
      requires Valid()
      modifies this
      ensures Valid() && old(pos) <= pos
      ensures var spec := S.ParseCondition(key, old(Rest()));
              (r.Some? <==> spec.Some?) && (r.Some? ==> (r.value, Rest()) == spec.value)
    {
      if pos >= |input| || input[pos] == ',' {
        return Some(S.Requirement(key, S.Exists, []));
      }
      var single;
      if input[pos] == '=' {
        pos := pos + 1;
        if pos < |input| && input[pos] == '=' {
          pos := pos + 1;
        }
        single := ParseSingleValue(key, S.Equals);
        return Some(single);
      }
      if input[pos] == '!' {
        pos := pos + 1;
        if pos >= |input| || input[pos] != '=' {
          return None;
        }
        pos := pos + 1;
        single := ParseSingleValue(key, S.NotEquals);
        return Some(single);
      }
      r := ParseSetOperator(key);
    }

    method ParseRequirement() returns (r: Option<S.Requirement>)
      requires Valid()
      modifies this
      ensures Valid() && old(pos) <= pos
      ensures var spec := S.ParseRequirement(old(Rest()));
              (r.Some? <==> spec.Some?) && (r.Some? ==> (r.value, Rest()) == spec.value)
    {
      SkipSpace();
      if pos >= |input| {
        return None;
      }
      var key;
      if input[pos] == '!' && pos + 1 < |input| && input[pos + 1] != '=' {
        assert Rest()[1..] == input[pos + 1..];
        pos := pos + 1;
        key := ParseIdentifier();
        return if key.None? then None else Some(S.Requirement(key.value, S.NotExists, []));
      }
      assert S.Skip(Rest()) == Rest();
      key := ParseIdentifier();
      if key.None? {
        return None;
      }
      SkipSpace();
      r := ParseCondition(key.value);
    }

    method ParseRequirements() returns (result: Option<S.Selector>)
      requires Valid()
      modifies this
      ensures Valid() && result == S.ParseRequirements(0, old(Rest()))
    {
      ghost var spec := S.ParseRequirements(0, Rest());
      var reqs: S.Selector := [];
      var more := true;
      ThenNothing(spec);
      while more
        invariant Valid() && |reqs| <= S.MAX_REQUIREMENTS && Reads(spec, reqs, more)
        decreases more, S.MAX_REQUIREMENTS - |reqs|
      {
        var next;
        next, more := Extend(reqs, spec);
        if next.None? {
          return None;
        }
        reqs := next.value;
      }
      assert reqs + [] == reqs;
      result := Some(reqs);
    }

    // What has been read and what the rest of the input adds are the whole.
    ghost predicate Reads(spec: Option<S.Selector>, reqs: S.Selector, more: bool)
      requires Valid()
      reads this
    {
      spec == Then(reqs, if more then S.ParseRequirements(|reqs|, Rest()) else Some([]))
    }

    method Extend(reqs: S.Selector, ghost spec: Option<S.Selector>) returns (next: Option<S.Selector>, more: bool)
      requires Valid() && Reads(spec, reqs, true)
      modifies this
      ensures Valid() && (next.None? ==> spec == None)
      ensures next.Some? ==> |next.value| == |reqs| + 1 <= S.MAX_REQUIREMENTS && Reads(spec, next.value, more)
    {
      if |reqs| >= S.MAX_REQUIREMENTS {
        return None, false;
      }
      var req;
      req, more := NextRequirement(|reqs|);
      if req.None? {
        return None, false;
      }
      ThenOneMore(reqs, req.value, if more then S.ParseRequirements(|reqs| + 1, Rest()) else Some([]));
      next := Some(reqs + [req.value]);
    }

    method ParseSelector() returns (result: Option<S.Selector>)
      requires Valid()
      modifies this
      ensures Valid() && result == S.ParseSelector(old(Rest()))
    {
      SkipSpace();
      if pos >= |input| {
        return Some([]);
      }
      result := ParseRequirements();
    }

    // One turn of parseSelector's loop: a requirement, and whether a comma
    // announces another.
    method NextRequirement(ghost n: nat) returns (req: Option<S.Requirement>, more: bool)
      requires Valid() && n < S.MAX_REQUIREMENTS
      modifies this
      ensures Valid()
      ensures S.ParseRequirements(n, old(Rest()))
           == if req.None? then None
              else Then([req.value], if more then S.ParseRequirements(n + 1, Rest()) else Some([]))
    {
      more := false;
      req := ParseRequirement();
      if req.None? {
        return;
      }
      assert [req.value] + [] == [req.value];
      SkipSpace();
      if pos >= |input| {
        return;
      }
      if input[pos] != ',' {
        return None, false;
      }
      assert Rest()[1..] == input[pos + 1..];
      pos := pos + 1;
      SkipSpace();
      if pos >= |input| {
        return None, false;
      }
      more := true;
    }
  }

  // The text writes these clauses, or is blank if there are none.
  ghost predicate IsWriting(cs: seq<G.Clause>, s: string) {
    G.GoodClauses(cs) && if cs == [] then G.Blank(s) else s == G.Write(cs)
  }

  // Parse: what the text means if it is the writing of a valid selector, and
  // nothing otherwise.
  method Parse(s: string) returns (result: Option<S.Selector>)
    ensures result == S.Parse(s)
    ensures result.Some? ==> S.ValidSelector(result.value)
    ensures forall cs | IsWriting(cs, s) ::
      result == if S.ValidSelector(G.Meanings(cs)) then Some(G.Meanings(cs)) else None
    ensures result.Some? ==> exists cs :: IsWriting(cs, s) && G.Meanings(cs) == result.value
  {
    forall cs | IsWriting(cs, s)
      ensures S.Parse(s) == if S.ValidSelector(G.Meanings(cs)) then Some(G.Meanings(cs)) else None
    {
      if cs == [] { G.BlankIsRead(s); } else { G.WrittenIsRead(cs); }
    }
    if S.Parse(s).Some? {
      ghost var cs := G.ReadWasWritten(s);
      assert IsWriting(cs, s);
    }
    var p := new Parser(s);
    var reqs := p.ParseSelector();
    result := if reqs.Some? && S.ValidSelector(reqs.value) then reqs else None;
  }
}
