/**
 * The regular-expression engine (Go's regexp package) as the service uses it:
 * `regexp.MustCompile(pattern)` followed by `Match(subject)`, which succeeds
 * when the pattern matches anywhere inside the subject. The engine itself is
 * not modelled; every operation takes it as a parameter, and the few facts
 * about RE2 that concrete examples need are stated as predicates on it.
 */
module Regex {
  import opened Wrappers

  /**
   * `compiles(p)`: MustCompile(p) returns instead of panicking.
   * `matches(p, s)`: the compiled `p` matches somewhere inside `s`.
   */
  datatype Engine = Engine(compiles: string -> bool, matches: (string, string) -> bool)

  /** The list filter pattern of mediaList: anything, then `p`, then anything. */
  function Anywhere(p: string): string
  {
    "(.*)" + p + "(.*)"
  }

  /** The characters RE2 gives a meaning outside a character class. */
  const MetaChars: set<char> := {'\\', '.', '+', '*', '?', '(', ')', '|', '[', ']', '{', '}', '^', '$'}

  /** A pattern made of ordinary characters only: it stands for itself. */
  predicate IsLiteral(p: string)
  {
    forall i :: 0 <= i < |p| ==> p[i] !in MetaChars
  }

  /** `p` occurs as a contiguous piece of `s`. */
  predicate Contains(s: string, p: string)
    decreases |s|
  {
    p <= s || (s != [] && Contains(s[1..], p))
  }

  lemma {:induction false} ContainsAt(s: string, p: string, i: nat)
    requires i + |p| <= |s| && s[i..i + |p|] == p
    ensures Contains(s, p)
  {
    if i > 0 {
      assert s[1..][i - 1..i - 1 + |p|] == s[i..i + |p|];
      ContainsAt(s[1..], p, i - 1);
    }
  }

  lemma {:induction false} NotContains(s: string, p: string, c: char)
    requires c in p && c !in s
    ensures !Contains(s, p)
  {
    if s != [] {
      NotContains(s[1..], p, c);
    }
  }

  /**
   * RE2 on literal patterns: a literal compiles and matches exactly where it
   * occurs, and so does the same literal surrounded by `(.*)`.
   */
  ghost predicate FindsLiterals(e: Engine)
  {
    (forall p :: IsLiteral(p) ==> e.compiles(p) && e.compiles(Anywhere(p))) &&
    (forall p, s :: IsLiteral(p) ==> (e.matches(p, s) <==> Contains(s, p))) &&
    (forall p, s :: IsLiteral(p) ==> (e.matches(Anywhere(p), s) <==> Contains(s, p)))
  }

  /** RE2 on `.*`: it compiles and matches every subject. */
  ghost predicate WildcardMatchesAll(e: Engine)
  {
    e.compiles(".*") && forall s :: e.matches(".*", s)
  }

  /** The literal a pattern of the form `(.*)p(.*)` surrounds, when `p` is a literal. */
  function Surrounded(q: string): Option<string>
  {
    if |q| >= 8 && q[..4] == "(.*)" && q[|q| - 4..] == "(.*)" && IsLiteral(q[4..|q| - 4])
    then Some(q[4..|q| - 4]) else None
  }

  /**
   * An engine that searches for literals, alone or surrounded by `(.*)`, and
   * matches every other pattern against every subject.
   */
  function LiteralEngine(): Engine
  {
    Engine(
      (q: string) => true,
      (q: string, s: string) =>
        if IsLiteral(q) then Contains(s, q)
        else match Surrounded(q) case Some(p) => Contains(s, p) case None => true)
  }

  /** The two descriptions of RE2 used by the examples hold together for some engine. */
  lemma LiteralEngineFindsLiterals()
    ensures FindsLiterals(LiteralEngine()) && WildcardMatchesAll(LiteralEngine())
  {
    var e := LiteralEngine();
    forall p | IsLiteral(p)
      ensures Surrounded(Anywhere(p)) == Some(p) && !IsLiteral(Anywhere(p))
    {
      var q := Anywhere(p);
      assert q[..4] == "(.*)" && q[|q| - 4..] == "(.*)" && q[4..|q| - 4] == p;
      assert q[0] == '(';
    }
    assert !IsLiteral(".*") by { assert ".*"[0] == '.'; }
    assert Surrounded(".*") == None;
    forall s ensures e.matches(".*", s) { }
  }

  /** Under RE2's treatment of literals, a literal with a character the subject lacks matches neither alone nor surrounded by `(.*)`. */
  lemma LiteralAbsent(e: Engine, p: string, s: string, c: char)
    requires FindsLiterals(e) && IsLiteral(p)
    requires c in p && c !in s
    ensures e.compiles(p) && e.compiles(Anywhere(p))
    ensures !e.matches(p, s) && !e.matches(Anywhere(p), s)
  {
    NotContains(s, p, c);
  }

  /** Under RE2's treatment of literals, a literal occurring at position `i` matches, alone and surrounded by `(.*)`. */
  lemma LiteralPresent(e: Engine, p: string, s: string, i: nat)
    requires FindsLiterals(e) && IsLiteral(p)
    requires i + |p| <= |s| && s[i..i + |p|] == p
    ensures e.compiles(p) && e.compiles(Anywhere(p))
    ensures e.matches(p, s) && e.matches(Anywhere(p), s)
  {
    ContainsAt(s, p, i);
  }
}
