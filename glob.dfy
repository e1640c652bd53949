/** Shell-style pattern matching as Python's `fnmatch.fnmatch` performs it on POSIX: the pattern is
    translated into tokens (`fnmatch.translate`), and a name matches when the whole name, from its first
    to its last character, is matched by the tokens. `*` matches any run of characters, `/` included. */
module Glob {
  import opened Base
  import opened Text

  /** One member of a bracket expression: a character, or a range `lo-hi` (empty when `lo > hi`). */
  datatype ClassItem = Single(c: char) | Span(lo: char, hi: char)

  datatype Token =
    | Literal(c: char)
    | AnyChar                                            // `?`
    | Star                                               // `*`
    | Class(negated: bool, items: seq<ClassItem>)        // `[...]`, or `[!...]` when negated

  predicate ItemHas(item: ClassItem, c: char)
  {
    match item
    case Single(x) => c == x
    case Span(lo, hi) => lo <= c <= hi
  }

  predicate InItems(items: seq<ClassItem>, c: char)
  {
    exists i :: 0 <= i < |items| && ItemHas(items[i], c)
  }

  /** Whether a token other than `*` accepts the character `c`. */
  predicate CharMatches(t: Token, c: char)
    requires !t.Star?
  {
    match t
    case Literal(x) => c == x
    case AnyChar => true
    case Class(negated, items) => InItems(items, c) != negated
  }

  /** The members of a bracket expression, read left to right: `x-y` is a range whenever a character
      follows the hyphen, so a hyphen that comes first, last, or right after a range is literal. */
  function ClassItems(body: string): (items: seq<ClassItem>)
    ensures |items| <= |body|
    decreases |body|
  {
    if body == [] then []
    else if |body| >= 3 && body[1] == '-' then [Span(body[0], body[2])] + ClassItems(body[3..])
    else [Single(body[0])] + ClassItems(body[1..])
  }

  /** The first index `k >= from` with `p[k] == c`, if any. */
  function FindFrom(p: string, from: nat, c: char): (r: Option<nat>)
    ensures r.Some? ==> from <= r.value < |p| && p[r.value] == c
    ensures forall k :: from <= k < |p| && (r.None? || k < r.value) ==> p[k] != c
    decreases |p| - from
  {
    if from >= |p| then None
    else if p[from] == c then Some(from)
    else FindFrom(p, from + 1, c)
  }

  /** The index of the `]` that closes a bracket expression opened just before `start`: a `!` right after
      the `[` negates, and a `]` right after that is a member rather than the end. */
  function CloseBracket(p: string, start: nat): (r: Option<nat>)
    ensures r.Some? ==> start < r.value < |p| && p[r.value] == ']'
  {
    var j := if start < |p| && p[start] == '!' then start + 1 else start;
    var k := if j < |p| && p[j] == ']' then j + 1 else j;
    FindFrom(p, k, ']')
  }

  function ClassToken(stuff: string): Token
  {
    if stuff != [] && stuff[0] == '!' then Class(true, ClassItems(stuff[1..]))
    else Class(false, ClassItems(stuff))
  }

  /** `fnmatch.translate`, as a token sequence: a `[` with no closing `]` stands for itself. */
  function Compile(p: string): seq<Token>
    decreases |p|
  {
    if p == [] then []
    else if p[0] == '*' then [Star] + Compile(p[1..])
    else if p[0] == '?' then [AnyChar] + Compile(p[1..])
    else if p[0] == '[' then
      match CloseBracket(p, 1)
      case None => [Literal('[')] + Compile(p[1..])
      case Some(j) => [ClassToken(p[1..j])] + Compile(p[j + 1..])
    else [Literal(p[0])] + Compile(p[1..])
  }

  /** Whether the tokens match all of `s` (the translated regular expression is anchored at both ends). */
  function Matches(toks: seq<Token>, s: string): bool
    decreases |toks|, |s|
  {
    if toks == [] then s == []
    else if toks[0].Star? then Matches(toks[1..], s) || (s != [] && Matches(toks, s[1..]))
    else s != [] && CharMatches(toks[0], s[0]) && Matches(toks[1..], s[1..])
  }

  /** `fnmatch.fnmatch(name, pat)`; `os.path.normcase` is the identity on POSIX. */
  predicate Fnmatch(name: string, pat: string)
  {
    Matches(Compile(pat), name)
  }

  /** Reference meaning of a token sequence: `*` stands for SOME split of the name. */
  ghost predicate Accepts(toks: seq<Token>, s: string)
    decreases |toks|
  {
    if toks == [] then s == []
    else if toks[0].Star? then exists k :: 0 <= k <= |s| && Accepts(toks[1..], s[k..])
    else s != [] && CharMatches(toks[0], s[0]) && Accepts(toks[1..], s[1..])
  }

  /** The backtracking matcher decides exactly the reference meaning. */
  lemma {:induction false} MatchesIffAccepts(toks: seq<Token>, s: string)
    ensures Matches(toks, s) <==> Accepts(toks, s)
    decreases |toks|, |s|
  {
    if toks == [] {
    } else if toks[0].Star? {
      var rest := toks[1..];
      if Matches(toks, s) {
        if Matches(rest, s) {
          MatchesIffAccepts(rest, s);
          assert s[0..] == s;
        } else {
          MatchesIffAccepts(toks, s[1..]);
          var k :| 0 <= k <= |s[1..]| && Accepts(rest, s[1..][k..]);
          assert s[1..][k..] == s[k + 1..];
        }
      } else {
        forall k | 0 <= k <= |s| ensures !Accepts(rest, s[k..]) {
          if k == 0 {
            assert s[0..] == s;
            MatchesIffAccepts(rest, s);
          } else {
            MatchesIffAccepts(toks, s[1..]);
            assert s[1..][k - 1..] == s[k..];
          }
        }
      }
    } else {
      if s != [] {
        MatchesIffAccepts(toks[1..], s[1..]);
      }
    }
  }

  /** A pattern character with no special meaning. */
  predicate Plain(c: char)
  {
    c != '*' && c != '?' && c != '['
  }

  predicate NoSpecial(p: string)
  {
    forall i :: 0 <= i < |p| ==> Plain(p[i])
  }

  function Literals(p: string): (toks: seq<Token>)
    ensures |toks| == |p|
  {
    if p == [] then [] else [Literal(p[0])] + Literals(p[1..])
  }

  /** A pattern without `*`, `?` and `[` translates to its characters, one literal each. */
  lemma {:induction false} CompileNoSpecial(p: string)
    requires NoSpecial(p)
    ensures Compile(p) == Literals(p)
    decreases |p|
  {
    if p != [] {
      CompileNoSpecial(p[1..]);
    }
  }

  /** Translation works piece by piece as long as the first piece opens no bracket. */
  lemma {:induction false} CompileAppend(p: string, q: string)
    requires '[' !in p
    ensures Compile(p + q) == Compile(p) + Compile(q)
    decreases |p|
  {
    if p == [] {
      assert p + q == q;
    } else {
      assert (p + q)[0] == p[0];
      assert (p + q)[1..] == p[1..] + q;
      CompileAppend(p[1..], q);
    }
  }

  /** Literal tokens consume exactly their own characters. */
  lemma {:induction false} MatchesLiterals(p: string, rest: seq<Token>, s: string)
    ensures Matches(Literals(p) + rest, s) <==> StartsWith(s, p) && Matches(rest, s[|p|..])
    decreases |p|
  {
    if p == [] {
      assert Literals(p) + rest == rest;
      assert s[0..] == s;
    } else {
      var more := Literals(p[1..]) + rest;
      assert Literals(p) + rest == [Literal(p[0])] + more;
      MatchesLiteralHead(p[0], more, s);
      if s != [] {
        MatchesLiterals(p[1..], rest, s[1..]);
        StartsWithStep(s, p);
      }
    }
  }

  /** A literal token consumes its own character. */
  lemma MatchesLiteralHead(c: char, rest: seq<Token>, s: string)
    ensures Matches([Literal(c)] + rest, s) <==> s != [] && s[0] == c && Matches(rest, s[1..])
  {
    var toks := [Literal(c)] + rest;
    assert toks[0] == Literal(c) && toks[1..] == rest;
  }

  /** A prefix check one character at a time. */
  lemma StartsWithStep(s: string, p: string)
    requires s != [] && p != []
    ensures StartsWith(s, p) <==> s[0] == p[0] && StartsWith(s[1..], p[1..])
    ensures |p| <= |s| ==> s[1..][|p| - 1..] == s[|p|..]
  {
    if |p| <= |s| {
      assert s[..|p|] == [s[0]] + s[1..][..|p| - 1];
      assert p == [p[0]] + p[1..];
    }
  }

  /** A star matches every name. */
  lemma {:induction false} StarMatchesAll(s: string)
    ensures Matches([Star], s)
    decreases |s|
  {
    if s != [] {
      StarMatchesAll(s[1..]);
    } else {
      assert [Star][1..] == [];
    }
  }

  /** `*` followed by literal characters matches exactly the names that end in those characters. */
  lemma {:induction false} StarSuffix(q: string, s: string)
    ensures Matches([Star] + Literals(q), s) <==> EndsWith(s, q)
    decreases |s|
  {
    var toks := [Star] + Literals(q);
    assert toks[1..] == Literals(q);
    MatchesLiterals(q, [], s);
    assert Literals(q) + [] == Literals(q);
    if s != [] {
      StarSuffix(q, s[1..]);
      if |q| <= |s| - 1 {
        assert s[1..][|s| - 1 - |q|..] == s[|s| - |q|..];
      }
    }
  }

  /** The empty pattern matches the empty name only. */
  lemma EmptyPattern(s: string)
    ensures Fnmatch(s, "") <==> s == ""
  {
  }

  /** A pattern without special characters matches exactly itself. */
  lemma LiteralPattern(p: string, s: string)
    requires NoSpecial(p)
    ensures Fnmatch(s, p) <==> s == p
  {
    CompileNoSpecial(p);
    MatchesLiterals(p, [], s);
    assert Literals(p) + [] == Literals(p);
  }

  // The pattern `dir/*` matches every path under the top-level `dir`, at any depth, and nothing else.
  lemma DirectoryPattern(d: string, s: string)
    requires NoSpecial(d)
    ensures Fnmatch(s, d + "/*") <==> StartsWith(s, d + "/")
  {
    var dd := d + "/";
    assert NoSpecial(dd) by {
      forall i | 0 <= i < |dd| ensures Plain(dd[i]) {
        if i < |d| { assert dd[i] == d[i]; }
      }
    }
    assert dd + "*" == d + "/*";
    assert '[' !in dd by {
      forall i | 0 <= i < |dd| ensures dd[i] != '[' { assert Plain(dd[i]); }
    }
    CompileAppend(dd, "*");
    CompileNoSpecial(dd);
    assert Compile("*") == [Star];
    MatchesLiterals(dd, [Star], s);
    if StartsWith(s, dd) {
      StarMatchesAll(s[|dd|..]);
    }
  }

  /** `*suffix` matches every path, at any depth, that ends with `suffix`. */
  lemma SuffixPattern(q: string, s: string)
    requires NoSpecial(q)
    ensures Fnmatch(s, "*" + q) <==> EndsWith(s, q)
  {
    var p := "*" + q;
    assert p[0] == '*' && p[1..] == q;
    CompileNoSpecial(q);
    StarSuffix(q, s);
  }

  /** A pattern that translates to one non-star token matches the one-character names it accepts. */
  lemma MatchesOne(t: Token, s: string)
    requires !t.Star?
    ensures Matches([t], s) <==> |s| == 1 && CharMatches(t, s[0])
  {
    assert [t][1..] == [];
  }

  /** A range accepts the characters between its ends. */
  lemma RangeExample()
    ensures Fnmatch("b", "[a-c]") && !Fnmatch("d", "[a-c]")
  {
    assert CloseBracket("[a-c]", 1) == Some(4);
    assert "[a-c]"[1..4] == "a-c";
    assert ClassItems("a-c") == [Span('a', 'c')];
    assert Compile("[a-c]") == [Class(false, [Span('a', 'c')])];
    assert ItemHas([Span('a', 'c')][0], 'b');
    MatchesOne(Class(false, [Span('a', 'c')]), "b");
    MatchesOne(Class(false, [Span('a', 'c')]), "d");
  }

  /** `[!...]` accepts the characters the class does not. */
  lemma NegatedExample()
    ensures !Fnmatch("b", "[!a-c]") && Fnmatch("d", "[!a-c]")
  {
    assert FindFrom("[!a-c]", 4, ']') == Some(5);
    assert FindFrom("[!a-c]", 2, ']') == Some(5);
    assert CloseBracket("[!a-c]", 1) == Some(5);
    assert "[!a-c]"[1..5] == "!a-c";
    assert "!a-c"[1..] == "a-c";
    assert ClassItems("a-c") == [Span('a', 'c')];
    assert Compile("[!a-c]") == [Class(true, [Span('a', 'c')])];
    assert ItemHas([Span('a', 'c')][0], 'b');
    MatchesOne(Class(true, [Span('a', 'c')]), "b");
    MatchesOne(Class(true, [Span('a', 'c')]), "d");
  }

  /** A `]` right after `[` is a member, and a trailing hyphen is literal. */
  lemma MemberExamples()
    ensures Fnmatch("]", "[]]") && Fnmatch("-", "[a-]")
  {
    assert CloseBracket("[]]", 1) == Some(2);
    assert "[]]"[1..2] == "]";
    assert ClassItems("]") == [Single(']')];
    assert Compile("[]]") == [Class(false, [Single(']')])];
    assert ItemHas([Single(']')][0], ']');
    MatchesOne(Class(false, [Single(']')]), "]");
    assert CloseBracket("[a-]", 1) == Some(3);
    assert "[a-]"[1..3] == "a-";
    assert ClassItems("a-") == [Single('a'), Single('-')];
    assert Compile("[a-]") == [Class(false, [Single('a'), Single('-')])];
    assert ItemHas([Single('a'), Single('-')][1], '-');
    MatchesOne(Class(false, [Single('a'), Single('-')]), "-");
  }

  /** An unclosed `[` stands for itself, and a reversed range accepts nothing. */
  lemma EdgeExamples()
    ensures Fnmatch("[x", "[x") && !Fnmatch("x", "[x")
    ensures !Fnmatch("b", "[c-a]")
  {
    assert CloseBracket("[c-a]", 1) == Some(4);
    assert "[c-a]"[1..4] == "c-a";
    assert ClassItems("c-a") == [Span('c', 'a')];
    assert Compile("[c-a]") == [Class(false, [Span('c', 'a')])];
    MatchesOne(Class(false, [Span('c', 'a')]), "b");
  }
}
