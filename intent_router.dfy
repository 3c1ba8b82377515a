/**
  Intent classification of backend/agent/intent_router.py.

  `IntentRouter.route` asks the language model for an intent, normalises the reply
  with `strip().lower()`, and classifies it by substring tests with a fixed
  precedence: a code marker wins over a derivation marker, and anything else,
  including any exception, is a concept question.  The model call is not modelled:
  its outcome is the input `Completion`.
 */
module IntentRouter {

  /** The three intents (`IntentType`, a `str` enum). */
  datatype IntentType = Derivation | Code | Concept {
    /** The enum's string value. */
    function Value(): string
    {
      match this
      case Derivation => "derivation"
      case Code => "code"
      case Concept => "concept"
    }
  }

  /** The three enum values are distinct strings. */
  lemma ValueInjective(a: IntentType, b: IntentType)
    ensures a.Value() == b.Value() <==> a == b
  {
    if a != b {
      var x, y := a.Value(), b.Value();
      assert |x| > 2 && |y| > 2 && x[2] != y[2];
    }
  }

  /** What `await self.llm.acomplete(prompt)` followed by `response.text` produced:
      a reply text, or an exception raised on the way. */
  datatype Completion = Reply(text: string) | Raised

  const CodeMarker: string := "code"
  const CodeMarkerZh: string := "代码"
  const DerivationMarker: string := "derivation"
  const DerivationMarkerZh: string := "推导"

  /** Python's `str.isspace()`: the code points `strip()` removes. */
  predicate IsSpace(c: char)
  {
    var n := c as int;
    || (0x09 <= n <= 0x0D) || (0x1C <= n <= 0x20) || n == 0x85 || n == 0xA0
    || n == 0x1680 || (0x2000 <= n <= 0x200A) || n == 0x2028 || n == 0x2029
    || n == 0x202F || n == 0x205F || n == 0x3000
  }

  /** Case folding of one character: ASCII upper-case letters become lower-case. */
  function LowerChar(c: char): char
  {
    if 'A' <= c <= 'Z' then (c as int - 'A' as int + 'a' as int) as char else c
  }

  /** `str.lower()`, on ASCII letters. */
  function Lower(s: string): string
  {
    seq(|s|, i requires 0 <= i < |s| => LowerChar(s[i]))
  }

  /** `str.lstrip()`: drops the leading white space. */
  function StripStart(s: string): (r: string)
    ensures |r| <= |s| && r == s[|s| - |r|..]
    ensures forall i :: 0 <= i < |s| - |r| ==> IsSpace(s[i])
    ensures r == [] || !IsSpace(r[0])
  {
    if |s| > 0 && IsSpace(s[0]) then StripStart(s[1..]) else s
  }

  /** `str.rstrip()`: drops the trailing white space. */
  function StripEnd(s: string): (r: string)
    ensures |r| <= |s| && r == s[..|r|]
    ensures forall i :: |r| <= i < |s| ==> IsSpace(s[i])
    ensures r == [] || !IsSpace(r[|r| - 1])
  {
    if |s| > 0 && IsSpace(s[|s| - 1]) then StripEnd(s[..|s| - 1]) else s
  }

  /** `str.strip()`. */
  function Strip(s: string): string
  {
    StripEnd(StripStart(s))
  }

  /** The reply as the router reads it: `response.text.strip().lower()`. */
  function Normalize(text: string): string
  {
    Lower(Strip(text))
  }

  /** `sub` occurs in `s` starting at index `i`. */
  ghost predicate OccursAt(s: string, sub: string, i: int)
  {
    0 <= i && i + |sub| <= |s| && s[i..i + |sub|] == sub
  }

  /** Python's `sub in s`. */
  function Contains(s: string, sub: string): (b: bool)
    ensures b <==> exists i :: OccursAt(s, sub, i)
    decreases |s|
  {
    if |sub| > |s| then false
    else if s[..|sub|] == sub then (assert OccursAt(s, sub, 0); true)
    else
      var b := Contains(s[1..], sub);
      assert forall i :: OccursAt(s[1..], sub, i) <==> OccursAt(s, sub, i + 1) by {
        forall i ensures OccursAt(s[1..], sub, i) <==> OccursAt(s, sub, i + 1) {
          if 0 <= i && i + |sub| <= |s| - 1 {
            assert s[1..][i..i + |sub|] == s[i + 1..i + 1 + |sub|];
          }
        }
      }
      assert !OccursAt(s, sub, 0);
      assert forall i :: OccursAt(s, sub, i) && i != 0 ==> OccursAt(s[1..], sub, i - 1);
      b
  }

  /** The reply contains one of the code markers. */
  predicate HasCodeMarker(s: string)
  {
    Contains(s, CodeMarker) || Contains(s, CodeMarkerZh)
  }

  /** The reply contains one of the derivation markers. */
  predicate HasDerivationMarker(s: string)
  {
    Contains(s, DerivationMarker) || Contains(s, DerivationMarkerZh)
  }

  /** The if/elif/else chain on the normalised reply. */
  function Parse(intent: string): IntentType
  {
    if HasCodeMarker(intent) then Code
    else if HasDerivationMarker(intent) then Derivation
    else Concept
  }

  /** No character of `m` is white space. */
  predicate NoSpace(m: string)
  {
    forall j :: 0 <= j < |m| ==> !IsSpace(m[j])
  }

  /** An occurrence of a marker without white space in `u` lies inside the slice `u[a..b]`
      when everything outside the slice is white space. */
  lemma OccurrenceInsideSlice(u: string, a: int, b: int, m: string, j: int)
    requires 0 <= a <= b <= |u|
    requires forall i :: 0 <= i < a ==> IsSpace(u[i])
    requires forall i :: b <= i < |u| ==> IsSpace(u[i])
    requires |m| > 0 && NoSpace(m)
    requires OccursAt(u, m, j)
    ensures OccursAt(u[a..b], m, j - a)
  {
    assert u[j] == u[j..j + |m|][0] == m[0];
    assert !IsSpace(u[j]);
    assert u[j + |m| - 1] == u[j..j + |m|][|m| - 1] == m[|m| - 1];
    assert !IsSpace(u[j + |m| - 1]);
    assert a <= j && j + |m| <= b;
    var t := u[a..b];
    var w := t[j - a..j - a + |m|];
    assert forall k :: 0 <= k < |m| ==> w[k] == u[j + k];
    assert w == u[j..j + |m|];
  }

  /** A marker without white space occurs in a slice of `u` whose surroundings are all white
      space exactly when it occurs in `u` itself. */
  lemma SliceKeepsMarker(u: string, a: int, b: int, m: string)
    requires 0 <= a <= b <= |u|
    requires forall i :: 0 <= i < a ==> IsSpace(u[i])
    requires forall i :: b <= i < |u| ==> IsSpace(u[i])
    requires |m| > 0 && NoSpace(m)
    ensures Contains(u[a..b], m) == Contains(u, m)
  {
    if Contains(u[a..b], m) {
      var t := u[a..b];
      var i :| OccursAt(t, m, i);
      var w := t[i..i + |m|];
      assert forall k :: 0 <= k < |m| ==> w[k] == u[i + a + k];
      assert u[i + a..i + a + |m|] == w;
      assert OccursAt(u, m, i + a);
    }
    if Contains(u, m) {
      var j :| OccursAt(u, m, j);
      OccurrenceInsideSlice(u, a, b, m, j);
    }
  }

  /** A string lacking some character of `m` does not contain `m`. */
  lemma MissingCharNoOccurrence(s: string, m: string, k: int)
    requires 0 <= k < |m|
    requires forall i :: 0 <= i < |s| ==> s[i] != m[k]
    ensures !Contains(s, m)
  {
    forall i ensures !OccursAt(s, m, i) {
      if 0 <= i && i + |m| <= |s| {
        assert s[i..i + |m|][k] == s[i + k];
      }
    }
  }

  /** `strip()` keeps a slice of its input with only white space around it. */
  lemma StripBounds(text: string) returns (a: int, b: int)
    ensures 0 <= a <= b <= |text| && Strip(text) == text[a..b]
    ensures forall i :: 0 <= i < a ==> IsSpace(text[i])
    ensures forall i :: b <= i < |text| ==> IsSpace(text[i])
  {
    var r1 := StripStart(text);
    var r2 := StripEnd(r1);
    a := |text| - |r1|;
    b := a + |r2|;
    assert r2 == text[a..b];
    forall i | b <= i < |text| ensures IsSpace(text[i]) {
      assert text[i] == r1[i - a];
    }
  }

  /** Lower-casing commutes with taking a slice. */
  lemma LowerSlice(s: string, a: int, b: int)
    requires 0 <= a <= b <= |s|
    ensures Lower(s[a..b]) == Lower(s)[a..b]
  {
  }

  /** `strip()` and `lower()` neither create nor destroy an occurrence of a marker that has no
      white space in it: the router's tests see the same markers as in the lower-cased reply. */
  lemma NormalizeKeepsMarker(text: string, m: string)
    requires |m| > 0 && NoSpace(m)
    ensures Contains(Normalize(text), m) == Contains(Lower(text), m)
  {
    var a, b := StripBounds(text);
    LowerSlice(text, a, b);
    var u := Lower(text);
    assert forall i :: 0 <= i < a ==> IsSpace(u[i]);
    assert forall i :: b <= i < |u| ==> IsSpace(u[i]);
    SliceKeepsMarker(u, a, b, m);
  }

  /** None of the four markers holds a white-space character. */
  lemma MarkersHaveNoSpace()
    ensures NoSpace(CodeMarker) && NoSpace(CodeMarkerZh)
    ensures NoSpace(DerivationMarker) && NoSpace(DerivationMarkerZh)
  {
    forall m, j | m in [CodeMarker, CodeMarkerZh, DerivationMarker, DerivationMarkerZh] && 0 <= j < |m|
      ensures !IsSpace(m[j])
    {
      assert 'a' <= m[j] <= 'z' || m[j] as int > 0x3000;
    }
  }

  /** The router's two tests give the same answers on the normalised reply as on the
      lower-cased reply. */
  lemma NormalizeKeepsMarkers(text: string)
    ensures HasCodeMarker(Normalize(text)) == HasCodeMarker(Lower(text))
    ensures HasDerivationMarker(Normalize(text)) == HasDerivationMarker(Lower(text))
  {
    MarkersHaveNoSpace();
    NormalizeKeepsMarker(text, CodeMarker);
    NormalizeKeepsMarker(text, CodeMarkerZh);
    NormalizeKeepsMarker(text, DerivationMarker);
    NormalizeKeepsMarker(text, DerivationMarkerZh);
  }

  /** `IntentRouter.route`, given the outcome of the model call: an exception gives a concept;
      otherwise a code marker in the lower-cased reply gives code whatever else it holds, a
      derivation marker without a code marker gives derivation, and no marker gives concept. */
  function Route(c: Completion): (r: IntentType)
    ensures c.Raised? ==> r == Concept
    ensures c.Reply? ==> (r == Code <==> HasCodeMarker(Lower(c.text)))
    ensures c.Reply? ==> (r == Derivation <==>
                          !HasCodeMarker(Lower(c.text)) && HasDerivationMarker(Lower(c.text)))
    ensures c.Reply? ==> (r == Concept <==>
                          !HasCodeMarker(Lower(c.text)) && !HasDerivationMarker(Lower(c.text)))
  {
    match c
    case Raised => Concept
    case Reply(text) =>
      NormalizeKeepsMarkers(text);
      Parse(Normalize(text))
  }

  /** Classification ignores letter case: replies that agree once lower-cased get the same intent. */
  lemma {:induction false} RouteIgnoresCase(a: string, b: string)
    requires Lower(a) == Lower(b)
    ensures Route(Reply(a)) == Route(Reply(b))
  {
  }

  /** An upper-case, padded "CODE" is code. */
  lemma RouteUpperCaseCode()
    ensures Route(Reply(" CODE\n")) == Code
  {
    var l := Lower(" CODE\n");
    assert l[1..5] == CodeMarker;
    assert OccursAt(l, CodeMarker, 1);
  }

  /** A reply naming both intents is code. */
  lemma RouteCodeBeforeDerivation()
    ensures Route(Reply("derivation code")) == Code
  {
    var l := Lower("derivation code");
    assert l[11..15] == CodeMarker;
    assert OccursAt(l, CodeMarker, 11);
  }

  /** "推导" alone is a derivation. */
  lemma RouteChineseDerivation()
    ensures Route(Reply("推导")) == Derivation
  {
    var l := Lower("推导");
    assert l == DerivationMarkerZh;
    assert OccursAt(l, DerivationMarkerZh, 0);
    MissingCharNoOccurrence(l, CodeMarker, 0);
    MissingCharNoOccurrence(l, CodeMarkerZh, 0);
  }
}
