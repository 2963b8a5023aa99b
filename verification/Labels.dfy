// Label keys and values, and which characters they may hold.
module Labels {

  const MAX_KEY_NAME: nat := 63
  const MAX_KEY_PREFIX: nat := 253
  const MAX_VALUE: nat := 63

  type LabelMap = map<string, string>

  predicate IsLowerAlnum(c: char) {
    'a' <= c <= 'z' || '0' <= c <= '9'
  }

  predicate IsAlnum(c: char) {
    IsLowerAlnum(c) || 'A' <= c <= 'Z'
  }

  // What the selector parser takes as part of a key or value.
  predicate IsIdent(c: char) {
    IsAlnum(c) || c in "-_./"
  }

  predicate AllIdent(s: string) {
    forall i | 0 <= i < |s| :: IsIdent(s[i])
  }

  predicate ValidNameChars(s: string)
    requires s != ""
  {
    && IsAlnum(s[0]) && IsAlnum(s[|s| - 1])
    && forall i | 0 <= i < |s| :: IsAlnum(s[i]) || s[i] in "-_."
  }

  predicate ValidDnsLabel(s: string)
    requires s != ""
  {
    && IsLowerAlnum(s[0]) && IsLowerAlnum(s[|s| - 1])
    && forall i | 0 <= i < |s| :: IsLowerAlnum(s[i]) || s[i] == '-'
  }

  // strings.Index for one character; |s| when it is absent.
  function IndexOf(s: string, c: char): (k: nat)
    ensures k <= |s| && (k < |s| ==> s[k] == c) && c !in s[..k]
  {
    if s == "" || s[0] == c then 0
    else
      var k := 1 + IndexOf(s[1..], c);
      assert s[..k] == [s[0]] + s[1..][..k - 1];
      k
  }

  // strings.Split for one character
  function Split(s: string, c: char): seq<string>
    decreases |s|
  {
    var k := IndexOf(s, c);
    if k == |s| then [s] else [s[..k]] + Split(s[k + 1..], c)
  }

  predicate ValidPrefix(prefix: string) {
    && prefix != "" && |prefix| <= MAX_KEY_PREFIX
    && forall i | 0 <= i < |Split(prefix, '.')| ::
         Split(prefix, '.')[i] != "" && ValidDnsLabel(Split(prefix, '.')[i])
  }

  predicate ValidName(name: string) {
    name != "" && |name| <= MAX_KEY_NAME && ValidNameChars(name)
  }

  // ValidateKey: [prefix/]name
  predicate ValidKey(key: string) {
    var k := IndexOf(key, '/');
    if k == |key| then ValidName(key)
    else '/' !in key[k + 1..] && ValidPrefix(key[..k]) && ValidName(key[k + 1..])
  }

  predicate ValidValue(value: string) {
    value == "" || (|value| <= MAX_VALUE && ValidNameChars(value))
  }

  lemma {:induction false} PartsAreIdent(s: string)
    requires forall i | 0 <= i < |Split(s, '.')| :: Split(s, '.')[i] != "" && ValidDnsLabel(Split(s, '.')[i])
    ensures AllIdent(s) && s != "" && s[0] != '.'
    decreases |s|
  {
    var k := IndexOf(s, '.');
    var parts := Split(s, '.');
    assert parts[0] == s[..k];
    assert ValidDnsLabel(parts[0]);
    if k < |s| {
      var rest := s[k + 1..];
      assert Split(rest, '.') == parts[1..];
      forall i | 0 <= i < |Split(rest, '.')|
        ensures Split(rest, '.')[i] != "" && ValidDnsLabel(Split(rest, '.')[i])
      {
        assert Split(rest, '.')[i] == parts[i + 1];
      }
      PartsAreIdent(rest);
      assert s == s[..k] + [s[k]] + rest;
    }
  }

  // A valid key is one identifier to the parser, and does not look like an
  // operator.
  lemma ValidKeyIsIdent(key: string)
    requires ValidKey(key)
    ensures key != "" && AllIdent(key) && IsAlnum(key[0])
  {
    var k := IndexOf(key, '/');
    if k < |key| {
      PartsAreIdent(key[..k]);
      assert Split(key[..k], '.')[0] == key[..k][..IndexOf(key[..k], '.')];
      assert key == key[..k] + [key[k]] + key[k + 1..];
    }
  }

  lemma ValidValueIsIdent(value: string)
    requires ValidValue(value)
    ensures AllIdent(value)
  {
  }
}
