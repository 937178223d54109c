/**
 Environment-variable expansion of configured header values (config.go, `expandEnv` and
 `validEnvironmentName`).
 */
module Environment {
  import opened Prelude

  datatype ExpandError = Unterminated | InvalidName(name: string) | NotSet(name: string)

  type Expansion = Result<string, ExpandError>

  predicate IsNameStart(c: char) { c == '_' || 'a' <= c <= 'z' || 'A' <= c <= 'Z' }

  predicate ValidName(name: string) {
    && name != "" && IsNameStart(name[0])
    && forall i | 1 <= i < |name| :: IsNameStart(name[i]) || '0' <= name[i] <= '9'
  }

  method ValidEnvironmentName(name: string) returns (ok: bool)
    ensures ok == ValidName(name)
    ensures ok <==> name != "" && forall i | 0 <= i < |name| ::
              'a' <= name[i] <= 'z' || 'A' <= name[i] <= 'Z' || name[i] == '_' || (i > 0 && '0' <= name[i] <= '9')
  {
    if name == "" || !IsNameStart(name[0]) { return false; }
    for i := 1 to |name|
      invariant forall j | 1 <= j < i :: IsNameStart(name[j]) || '0' <= name[j] <= '9'
    {
      if !IsNameStart(name[i]) && (name[i] < '0' || name[i] > '9') { return false; }
    }
    return true;
  }

  /** The position of the first closing brace, or the length. */
  function Brace(s: string): (end: nat)
    ensures end <= |s| && '}' !in s[..end] && (end < |s| ==> s[end] == '}')
  {
    if |s| == 0 || s[0] == '}' then 0
    else
      var end := Brace(s[1..]) + 1;
      assert s[..end] == [s[0]] + s[1..][..end - 1];
      end
  }

  function Prepended(front: string, rest: Expansion): Expansion {
    if rest.Ok? then Ok(front + rest.value) else rest
  }

  predicate EscapedBackslash(s: string) { |s| >= 2 && s[0] == '\\' && s[1] == '\\' }
  predicate EscapedReference(s: string) { |s| >= 3 && s[0] == '\\' && s[1] == '$' && s[2] == '{' }
  predicate Opens(s: string) { |s| >= 2 && s[0] == '$' && s[1] == '{' }

  /** What the text starts with: the characters it stands for, and how many it takes. */
  function Token(s: string, env: map<string, string>): (t: Result<(string, nat), ExpandError>)
    requires |s| > 0
    ensures t.Ok? ==> 0 < t.value.1 <= |s|
  {
    if EscapedBackslash(s) then Ok(("\\", 2))
    else if EscapedReference(s) then Ok(("${", 3))
    else if !Opens(s) then Ok(([s[0]], 1))
    else
      var end := Brace(s[2..]);
      if end == |s[2..]| then Err(Unterminated)
      else
        var name := s[2..][..end];
        if !ValidName(name) then Err(InvalidName(name))
        else if name !in env then Err(NotSet(name))
        else Ok((env[name], 3 + end))
  }

  function Expand(value: string, env: map<string, string>): Expansion
    decreases |value|
  {
    if |value| == 0 then Ok("")
    else
      match Token(value, env)
      case Err(error) => Err(error)
      case Ok((written, taken)) => Prepended(written, Expand(value[taken..], env))
  }

  lemma PrependedTwice(a: string, b: string, rest: Expansion)
    ensures Prepended(a, Prepended(b, rest)) == Prepended(a + b, rest)
    ensures Prepended("", rest) == rest
  {
    if rest.Ok? {
      assert a + (b + rest.value) == (a + b) + rest.value;
      assert "" + rest.value == rest.value;
    }
  }

  lemma ExpandStep(s: string, written: string, taken: nat, env: map<string, string>)
    requires |s| > 0 && Token(s, env) == Ok((written, taken))
    ensures Expand(s, env) == Prepended(written, Expand(s[taken..], env))
  {
  }

  /** One turn of the scan at position `i`. */
  method ScanToken(value: string, i: nat, env: map<string, string>) returns (t: Result<(string, nat), ExpandError>)
    requires i < |value|
    ensures t == Token(value[i..], env)
  {
    ghost var s := value[i..];
    if value[i] == '\\' {
      if i + 1 < |value| && value[i + 1] == '\\' { return Ok(("\\", 2)); }
      if i + 2 < |value| && value[i + 1] == '$' && value[i + 2] == '{' { return Ok(("${", 3)); }
    }
    if i + 1 < |value| && value[i] == '$' && value[i + 1] == '{' {
      var rest := value[i + 2..];
      assert s[2..] == rest;
      var end := Brace(rest);
      if end == |rest| { return Err(Unterminated); }
      var name := rest[..end];
      var valid := ValidEnvironmentName(name);
      if !valid { return Err(InvalidName(name)); }
      if name !in env { return Err(NotSet(name)); }
      return Ok((env[name], 2 + end + 1));
    }
    return Ok(([value[i]], 1));
  }

  /** What the scan has written at position `i`, followed by the expansion of the rest. */
  function Scanned(value: string, i: nat, expanded: string, env: map<string, string>): Expansion
    requires i <= |value|
  {
    Prepended(expanded, Expand(value[i..], env))
  }

  lemma ScanTurn(value: string, i: nat, expanded: string, written: string, taken: nat, env: map<string, string>)
    requires i < |value| && Token(value[i..], env) == Ok((written, taken))
    ensures Scanned(value, i, expanded, env) == Scanned(value, i + taken, expanded + written, env)
  {
    assert value[i..][taken..] == value[i + taken..];
    ExpandStep(value[i..], written, taken, env);
    PrependedTwice(expanded, written, Expand(value[i + taken..], env));
  }

  lemma ScanStarts(value: string, env: map<string, string>)
    ensures Scanned(value, 0, "", env) == Expand(value, env)
  {
    assert value[0..] == value;
    PrependedTwice("", "", Expand(value, env));
  }

  lemma ScanFails(value: string, i: nat, expanded: string, env: map<string, string>)
    requires i < |value| && Token(value[i..], env).Err?
    ensures Scanned(value, i, expanded, env) == Err(Token(value[i..], env).error)
  {
  }

  lemma ScanEnds(value: string, expanded: string, env: map<string, string>)
    ensures Scanned(value, |value|, expanded, env) == Ok(expanded)
  {
    assert expanded + "" == expanded;
  }

  /** The scan: one pass, each turn consuming at least one character. */
  method ExpandEnv(value: string, env: map<string, string>) returns (r: Expansion)
    ensures r == Expand(value, env)
  {
    ghost var whole := Expand(value, env);
    var expanded, i := "", 0;
    ScanStarts(value, env);
    while i < |value|
      invariant 0 <= i <= |value|
      invariant Scanned(value, i, expanded, env) == whole
    {
      var token := ScanToken(value, i, env);
      if token.Err? {
        ScanFails(value, i, expanded, env);
        return Err(token.error);
      }
      var (written, taken) := token.value;
      ScanTurn(value, i, expanded, written, taken, env);
      expanded, i := expanded + written, i + taken;
    }
    ScanEnds(value, expanded, env);
    return Ok(expanded);
  }

  // ----- Text without references

  predicate HasOpening(s: string) {
    exists k | 0 <= k < |s| - 1 :: s[k] == '$' && s[k + 1] == '{'
  }

  predicate HasDoubledBackslash(s: string) {
    exists k | 0 <= k < |s| - 1 :: s[k] == '\\' && s[k + 1] == '\\'
  }

  /** What is left after a token of such a text. */
  lemma PlainRest(s: string, taken: nat)
    requires |s| > 0 && !HasOpening(s) && taken == if EscapedBackslash(s) then 2 else 1
    ensures !HasOpening(s[taken..])
    ensures taken == 1 ==> (HasDoubledBackslash(s[1..]) <==> HasDoubledBackslash(s))
    ensures taken == 2 ==> HasDoubledBackslash(s)
  {
    var rest := s[taken..];
    forall k | 0 <= k < |rest| - 1
      ensures !(rest[k] == '$' && rest[k + 1] == '{')
    {
      assert rest[k] == s[k + taken] && rest[k + 1] == s[k + taken + 1];
    }
    if taken == 1 && HasDoubledBackslash(rest) {
      var k :| 0 <= k < |rest| - 1 && rest[k] == '\\' && rest[k + 1] == '\\';
      assert s[k + 1] == '\\' && s[k + 1 + 1] == '\\';
    }
    if taken == 1 && HasDoubledBackslash(s) {
      var k :| 0 <= k < |s| - 1 && s[k] == '\\' && s[k + 1] == '\\';
      assert rest[k - 1] == '\\' && rest[k - 1 + 1] == '\\';
    }
  }

  lemma OpeningTokens(s: string)
    ensures EscapedReference(s) || Opens(s) ==> HasOpening(s)
  {
    if EscapedReference(s) {
      assert s[1] == '$' && s[1 + 1] == '{';
    } else if Opens(s) {
      assert s[0] == '$' && s[0 + 1] == '{';
    }
  }

  lemma PlainToken(s: string, env: map<string, string>)
    requires |s| > 0 && !HasOpening(s)
    ensures Token(s, env) == Ok((s[..1], if EscapedBackslash(s) then 2 else 1))
  {
    assert s[..1] == [s[0]];
    OpeningTokens(s);
  }

  /** Its expansion is never longer, and shorter exactly where a doubled backslash has collapsed. */
  lemma {:induction false} PlainExpands(s: string, env: map<string, string>)
    requires !HasOpening(s)
    ensures Expand(s, env).Ok?
    ensures if HasDoubledBackslash(s) then |Expand(s, env).value| < |s| else Expand(s, env).value == s
    decreases |s|
  {
    if |s| > 0 {
      var taken := if EscapedBackslash(s) then 2 else 1;
      PlainToken(s, env);
      PlainRest(s, taken);
      PlainExpands(s[taken..], env);
      ExpandStep(s, s[..1], taken, env);
      assert s == s[..1] + s[1..];
    }
  }

  /** Text without `${` is literal if and only if no two backslashes are adjacent in it. */
  lemma LiteralWithoutReferences(s: string, env: map<string, string>)
    requires !HasOpening(s)
    ensures Expand(s, env) == Ok(s) <==> !HasDoubledBackslash(s)
  {
    PlainExpands(s, env);
  }

  /** The shortest text that is not: two backslashes expand to one. */
  lemma DoubledBackslashCollapses(env: map<string, string>)
    ensures !HasOpening("\\\\") && Expand("\\\\", env) == Ok("\\")
    ensures Expand("\\\\", env) != Ok("\\\\")
  {
    var s := "\\\\";
    assert s[2..] == "" && s[..1] == "\\";
    PlainToken(s, env);
    ExpandStep(s, s[..1], 2, env);
    assert Expand("", env) == Ok("");
    assert "\\" + "" == "\\";
    assert |"\\"| < |s|;
  }

  // ----- Quoting

  /** The literal form of a text: backslashes doubled, and a backslash before an opening `${`. */
  function Quote(text: string): string {
    if |text| == 0 then ""
    else if text[0] == '\\' then "\\\\" + Quote(text[1..])
    else if Opens(text) then "\\${" + Quote(text[2..])
    else [text[0]] + Quote(text[1..])
  }

  /** A text may be followed by anything that does not turn a final dollar sign into an opening `${`. */
  predicate Separate(text: string, rest: string) {
    !(|text| > 0 && text[|text| - 1] == '$' && |rest| > 0 && rest[0] == '{')
  }

  /** Quoting never opens a reference, and neither does what follows. */
  lemma QuoteOpens(text: string, rest: string)
    requires |text| > 0 && text[0] == '$' && !Opens(text) && Separate(text, rest)
    ensures var tail := Quote(text[1..]) + rest; |tail| == 0 || tail[0] != '{'
  {
    if |text| > 1 {
      assert |Quote(text[1..])| > 0 && Quote(text[1..])[0] != '{';
    } else {
      assert Quote(text[1..]) + rest == rest;
    }
  }

  /** A quoted text expands to itself, whatever follows. */
  lemma {:induction false} QuotedIsLiteral(text: string, rest: string, env: map<string, string>)
    requires Separate(text, rest)
    ensures Expand(Quote(text) + rest, env) == Prepended(text, Expand(rest, env))
    decreases |text|
  {
    if |text| == 0 {
      assert Quote(text) + rest == rest;
      PrependedTwice("", "", Expand(rest, env));
    } else {
      var n := if Opens(text) then 2 else 1;
      QuotedIsLiteral(text[n..], rest, env);
      PrependedTwice(text[..n], text[n..], Expand(rest, env));
      assert text == text[..n] + text[n..];
      QuotedStep(text, rest, env, n);
    }
  }

  lemma Headed(head: string, middle: string, rest: string)
    ensures head + middle + rest == head + (middle + rest)
    ensures (head + middle + rest)[|head|..] == middle + rest
  {
  }

  lemma BackslashToken(tail: string, env: map<string, string>)
    ensures Token("\\\\" + tail, env) == Ok(("\\", 2))
  {
  }

  lemma EscapeToken(tail: string, env: map<string, string>)
    ensures Token("\\${" + tail, env) == Ok(("${", 3))
  {
  }

  lemma CharacterToken(c: char, tail: string, env: map<string, string>)
    requires c != '\\' && (c == '$' ==> |tail| == 0 || tail[0] != '{')
    ensures Token([c] + tail, env) == Ok(([c], 1))
  {
  }

  /** The first quoted character, or the first quoted `${`, is one token. */
  lemma QuotedStep(text: string, rest: string, env: map<string, string>, n: nat)
    requires |text| > 0 && Separate(text, rest) && n == if Opens(text) then 2 else 1
    ensures Expand(Quote(text) + rest, env) == Prepended(text[..n], Expand(Quote(text[n..]) + rest, env))
  {
    var quoted := Quote(text[n..]);
    if text[0] == '\\' {
      BackslashToken(quoted + rest, env);
      StepOver("\\\\", quoted, rest, "\\", env);
      assert text[..1] == "\\";
    } else if Opens(text) {
      EscapeToken(quoted + rest, env);
      StepOver("\\${", quoted, rest, "${", env);
      assert text[..2] == "${";
    } else {
      if text[0] == '$' {
        QuoteOpens(text, rest);
      }
      CharacterToken(text[0], quoted + rest, env);
      StepOver([text[0]], quoted, rest, [text[0]], env);
      assert text[..1] == [text[0]];
    }
  }

  lemma StepOver(head: string, middle: string, rest: string, written: string, env: map<string, string>)
    requires |head| > 0 && Token(head + (middle + rest), env) == Ok((written, |head|))
    ensures Expand(head + middle + rest, env) == Prepended(written, Expand(middle + rest, env))
  {
    Headed(head, middle, rest);
    ExpandStep(head + (middle + rest), written, |head|, env);
  }

  lemma {:induction false} BraceAfter(name: string, rest: string)
    requires '}' !in name
    ensures Brace(name + "}" + rest) == |name|
    decreases |name|
  {
    if |name| == 0 {
      assert name + "}" + rest == "}" + rest;
    } else {
      assert (name + "}" + rest)[1..] == name[1..] + "}" + rest;
      BraceAfter(name[1..], rest);
    }
  }

  lemma ReferenceExpands(name: string, rest: string, env: map<string, string>)
    requires ValidName(name) && name in env
    ensures Expand("${" + name + "}" + rest, env) == Prepended(env[name], Expand(rest, env))
  {
    var value := "${" + name + "}" + rest;
    assert value[2..] == name + "}" + rest;
    BraceAfter(name, rest);
    assert value[2..][..|name|] == name;
    assert value[3 + |name|..] == rest;
    ExpandStep(value, env[name], 3 + |name|, env);
  }

  lemma {:induction false} NoBrace(tail: string)
    requires '}' !in tail
    ensures Brace(tail) == |tail|
    decreases |tail|
  {
    if |tail| > 0 {
      NoBrace(tail[1..]);
    }
  }

  lemma ExpansionFails(value: string, env: map<string, string>)
    requires |value| > 0 && Token(value, env).Err?
    ensures Expand(value, env) == Err(Token(value, env).error)
  {
  }

  /** A reference by a name that is not one, or to a variable that is not set, fails and says which, after any quoted text. */
  lemma UnresolvedReference(a: string, name: string, rest: string, env: map<string, string>)
    requires '}' !in name && !(ValidName(name) && name in env)
    ensures Expand(Quote(a) + ("${" + name + "}" + rest), env) == Err(if ValidName(name) then NotSet(name) else InvalidName(name))
  {
    var value := "${" + name + "}" + rest;
    assert value[0] == '$';
    QuotedIsLiteral(a, value, env);
    assert value[2..] == name + "}" + rest;
    BraceAfter(name, rest);
    assert value[2..][..|name|] == name;
    ExpansionFails(value, env);
  }

  /** So does an opening without a closing brace. */
  lemma UnterminatedReference(a: string, tail: string, env: map<string, string>)
    requires '}' !in tail
    ensures Expand(Quote(a) + ("${" + tail), env) == Err(Unterminated)
  {
    var value := "${" + tail;
    assert value[0] == '$';
    QuotedIsLiteral(a, value, env);
    assert value[2..] == tail;
    NoBrace(tail);
    ExpansionFails(value, env);
  }

  /**
   Expansion is a single pass and quoting inverts it: around a reference, quoted text comes back as it was and the
   variable's value appears unchanged, whatever it contains.
   */
  lemma QuotedReference(a: string, name: string, b: string, env: map<string, string>)
    requires ValidName(name) && name in env
    ensures Expand(Quote(a) + ("${" + name + "}" + Quote(b)), env) == Ok(a + env[name] + b)
  {
    var reference := "${" + name + "}" + Quote(b);
    assert reference[0] == '$';
    QuotedIsLiteral(a, reference, env);
    ReferenceExpands(name, Quote(b), env);
    QuotedIsLiteral(b, "", env);
    assert Quote(b) + "" == Quote(b);
    assert b + "" == b;
    assert a + (env[name] + b) == a + env[name] + b;
  }
}
