/** The condition of a policy, as each executor evaluates it. */
module Conditions {
  import opened Text

  /** A claim as decoded from JSON: text, null, or anything else with the text that
      JavaScript's String makes of it. */
  datatype Claim = Text(s: string) | Null | Other(rendered: string)

  /** What a condition can look at. Header names are in lower case. */
  datatype Request = Request(httpMethod: string, plan: string, headers: map<string, string>, claims: map<string, Claim>)

  /** The part before the first '=', and the part after it. */
  function KeyOf(cond: string): string {
    Trim(Before(cond, '='))
  }

  function ExpectedOf(cond: string): string {
    Trim(After(cond, '='))
  }

  const HEADER := "header."
  const CLAIM := "claim."

  /** evalCondition of the policy engine: what is absent or not text reads as empty. */
  function GoHolds(cond: string, r: Request): bool {
    var key, expected := KeyOf(cond), ExpectedOf(cond);
    if '=' !in cond then true
    else if StartsWith(key, HEADER) then
      var h := Mapped(key[|HEADER|..], Lower);
      (if h in r.headers then r.headers[h] else "") == expected
    else if StartsWith(key, CLAIM) then
      var c := key[|CLAIM|..];
      (if c in r.claims && r.claims[c].Text? then r.claims[c].s else "") == expected
    else if key == "method" then Mapped(r.httpMethod, Upper) == Mapped(expected, Upper)
    else if key == "plan" then r.plan == expected
    else true
  }

  /** evalCondition of the gateway: an absent header equals nothing, and a claim that is
      not text is rendered. */
  function TsHolds(cond: string, r: Request): bool {
    var key, expected := KeyOf(cond), ExpectedOf(cond);
    if '=' !in cond then true
    else if StartsWith(key, HEADER) then
      var h := Mapped(key[|HEADER|..], Lower);
      h in r.headers && r.headers[h] == expected
    else if StartsWith(key, CLAIM) then
      var c := key[|CLAIM|..];
      (if c !in r.claims then ""
       else match r.claims[c]
            case Text(s) => s
            case Null => ""
            case Other(rendered) => rendered) == expected
    else if key == "method" then Mapped(r.httpMethod, Upper) == Mapped(expected, Upper)
    else if key == "plan" then r.plan == expected
    else true
  }

  /** The condition asks for an empty header that the request does not have. */
  predicate AsksForAbsentHeader(cond: string, r: Request) {
    '=' in cond && StartsWith(KeyOf(cond), HEADER) && ExpectedOf(cond) == ""
    && Mapped(KeyOf(cond)[|HEADER|..], Lower) !in r.headers
  }

  /** The condition asks for the rendering of a claim that is neither text nor null, or
      for the empty text where such a claim does not render as that. */
  predicate AsksForOtherClaim(cond: string, r: Request) {
    '=' in cond && StartsWith(KeyOf(cond), CLAIM) &&
    var c := KeyOf(cond)[|CLAIM|..];
    c in r.claims && r.claims[c].Other?
    && (ExpectedOf(cond) == "") != (ExpectedOf(cond) == r.claims[c].rendered)
  }

  /** The two evaluations agree exactly on everything else. */
  lemma EvaluationsAgreeExactly(cond: string, r: Request)
    ensures GoHolds(cond, r) == TsHolds(cond, r) <==> !AsksForAbsentHeader(cond, r) && !AsksForOtherClaim(cond, r)
  {
    assert HEADER[0] != CLAIM[0];
  }

  /** The text `claim.<name>=<expected>` where the claim is a number, say, that renders
      as `expected`: the gateway's condition holds and the policy engine's does not. */
  lemma OtherClaimDiffers(name: string, expected: string, r: Request)
    requires name != "" && '=' !in name && !IsBlank(name[|name| - 1])
    requires expected != "" && !IsBlank(expected[0]) && !IsBlank(expected[|expected| - 1])
    requires name in r.claims && r.claims[name] == Other(expected)
    ensures var cond := CLAIM + name + "=" + expected;
            TsHolds(cond, r) && !GoHolds(cond, r)
  {
    var key := CLAIM + name;
    SplitAtFirst(key, '=', expected);
    assert key + ['='] + expected == CLAIM + name + "=" + expected;
    assert key[|key| - 1] == name[|name| - 1];
    TrimPlain(key);
    TrimPlain(expected);
    assert key[..|CLAIM|] == CLAIM && key[|CLAIM|..] == name;
    assert (key + ['='] + expected)[|key|] == '=';
    assert HEADER[0] != CLAIM[0];
  }

  // ---- What conditions mean ------------------------------------------------

  /** Text that stays as it is when a condition is taken apart. */
  predicate PlainKey(s: string) {
    Solid(s) && '=' !in s
  }

  lemma TakenApart(key: string, expected: string)
    requires PlainKey(key) && (expected == "" || Solid(expected))
    ensures var cond := key + "=" + expected;
            '=' in cond && KeyOf(cond) == key && ExpectedOf(cond) == expected
  {
    var cond := key + ['='] + expected;
    assert cond == key + "=" + expected && cond[|key|] == '=';
    SplitAtFirst(key, '=', expected);
    TrimPlain(key);
    TrimPlain(expected);
  }

  /** On a header: its value, whatever the case of its name. */
  lemma HeaderCondition(name: string, expected: string, r: Request)
    requires name != "" && PlainKey("header." + name) && Solid(expected)
    ensures var h, cond := Mapped(name, Lower), "header." + name + "=" + expected;
            (GoHolds(cond, r) <==> h in r.headers && r.headers[h] == expected)
            && (TsHolds(cond, r) <==> h in r.headers && r.headers[h] == expected)
  {
    TakenApart("header." + name, expected);
    assert ("header." + name)[..7] == "header." && ("header." + name)[7..] == name;
  }

  /** On a claim that is text. */
  lemma ClaimCondition(name: string, expected: string, r: Request)
    requires name != "" && PlainKey("claim." + name) && Solid(expected)
    requires name in r.claims ==> !r.claims[name].Other?
    ensures var cond := "claim." + name + "=" + expected;
            (GoHolds(cond, r) <==> name in r.claims && r.claims[name] == Text(expected))
            && (TsHolds(cond, r) <==> name in r.claims && r.claims[name] == Text(expected))
  {
    TakenApart("claim." + name, expected);
    assert ("claim." + name)[..6] == "claim." && ("claim." + name)[6..] == name;
    assert "claim."[0] != "header."[0];
  }

  /** On method, in any case, and plan; anything else holds. */
  lemma OtherConditions(expected: string, key: string, text: string, r: Request)
    requires Solid(expected) && PlainKey(key) && '=' !in text
    requires !StartsWith(key, "header.") && !StartsWith(key, "claim.") && key != "method" && key != "plan"
    ensures GoHolds("method=" + expected, r) == TsHolds("method=" + expected, r)
            == (Mapped(r.httpMethod, Upper) == Mapped(expected, Upper))
    ensures GoHolds("plan=" + expected, r) == TsHolds("plan=" + expected, r) == (r.plan == expected)
    ensures GoHolds(key + "=" + expected, r) && TsHolds(key + "=" + expected, r)
    ensures GoHolds(text, r) && TsHolds(text, r)
  {
    assert "method" + "=" + expected == "method=" + expected && "plan" + "=" + expected == "plan=" + expected;
    TakenApart("method", expected);
    TakenApart("plan", expected);
    TakenApart(key, expected);
    assert "method"[0] != "header."[0] && "method"[0] != "claim."[0];
    assert "plan"[0] != "header."[0] && "plan"[0] != "claim."[0] && "plan"[0] != "method"[0];
  }
}
