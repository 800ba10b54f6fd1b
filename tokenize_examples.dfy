/** The example table of the tokenizer's unit tests, proved of the model: each
    pattern tokenizes to the listed tokens, and each ill-formed pattern fails. */
module TokenizeExamples {
  import opened TokenizeGlob
  import opened GlobSerialize
  import opened TokenizeLaws

  function RangeToken(from: char, to: char): Token { Disjunction(false, Range(from, to)) }
  function NegRangeToken(from: char, to: char): Token { Disjunction(true, Range(from, to)) }
  function SetToken(values: seq<char>): Token { Disjunction(false, Set(values)) }
  function NegSetToken(values: seq<char>): Token { Disjunction(true, Set(values)) }

  /** A pattern that is the text of one well-formed token tokenizes to that token. */
  lemma Single(t: Token)
    requires TokenOk(t)
    ensures Tokenize(SerializeToken(t)) == Ok([t])
  {
    assert Serialize([t]) == SerializeToken(t) + Serialize([]);
    assert SerializeToken(t) + [] == SerializeToken(t);
    assert WellFormed([t]);
    TokenizeSerialize([t]);
  }

  /** A bracket pattern `p` that writes out a well-formed set reads back as that set. */
  lemma SingleSet(negate: bool, values: seq<char>, p: seq<char>)
    requires SetOk(negate, values) && p == Opening(negate) + values + "]"
    ensures Tokenize(p) == Ok([Disjunction(negate, Set(values))])
  {
    Single(Disjunction(negate, Set(values)));
  }

  /** A bracket pattern `p` that writes out a well-formed range reads back as that range. */
  lemma SingleRange(negate: bool, from: char, to: char, p: seq<char>)
    requires RangeOk(negate, from, to) && p == Opening(negate) + [from, '-', to] + "]"
    ensures Tokenize(p) == Ok([Disjunction(negate, Range(from, to))])
  {
    Single(Disjunction(negate, Range(from, to)));
  }

  /** Literal runs and wildcards outside brackets; `]` and `!` are literal there. */
  lemma ExamplesOutsideBrackets()
    ensures Tokenize("a") == Ok([Exact("a")])
    ensures Tokenize("abc") == Ok([Exact("abc")])
    ensures Tokenize("]") == Ok([Exact("]")])
    ensures Tokenize("!") == Ok([Exact("!")])
    ensures Tokenize("?") == Ok([Any])
    ensures Tokenize("*") == Ok([All])
    ensures Tokenize("a]]a") == Ok([Exact("a]]a")])
  {
    assert Tokenize("a") == Ok([Exact("a")]) by {
      assert ExactOk("a"); Single(Exact("a"));
    }
    assert Tokenize("abc") == Ok([Exact("abc")]) by {
      assert ExactOk("abc"); Single(Exact("abc"));
    }
    assert Tokenize("]") == Ok([Exact("]")]) by {
      assert ExactOk("]"); Single(Exact("]"));
    }
    assert Tokenize("!") == Ok([Exact("!")]) by {
      assert ExactOk("!"); Single(Exact("!"));
    }
    assert Tokenize("?") == Ok([Any]) by {
      Single(Any);
    }
    assert Tokenize("*") == Ok([All]) by {
      Single(All);
    }
    assert Tokenize("a]]a") == Ok([Exact("a]]a")]) by {
      assert ExactOk("a]]a"); Single(Exact("a]]a"));
    }
  }

  /** Ranges: three code points with `-` in the middle, `[---]` included, astral code points included. */
  lemma ExamplesRanges()
    ensures Tokenize("[a-z]") == Ok([RangeToken('a', 'z')])
    ensures Tokenize("[!a-z]") == Ok([NegRangeToken('a', 'z')])
    ensures Tokenize("[\U{1f431}-\U{1f434}]") == Ok([RangeToken('\U{1f431}', '\U{1f434}')])
    ensures Tokenize("[!!-a]") == Ok([NegRangeToken('!', 'a')])
    ensures Tokenize("[---]") == Ok([RangeToken('-', '-')])
  {
    assert Tokenize("[a-z]") == Ok([RangeToken('a', 'z')]) by {
      SingleRange(false, 'a', 'z', "[a-z]");
    }
    assert Tokenize("[!a-z]") == Ok([NegRangeToken('a', 'z')]) by {
      SingleRange(true, 'a', 'z', "[!a-z]");
    }
    assert Tokenize("[\U{1f431}-\U{1f434}]") == Ok([RangeToken('\U{1f431}', '\U{1f434}')]) by {
      SingleRange(false, '\U{1f431}', '\U{1f434}', "[\U{1f431}-\U{1f434}]");
    }
    assert Tokenize("[!!-a]") == Ok([NegRangeToken('!', 'a')]) by {
      SingleRange(true, '!', 'a', "[!!-a]");
    }
    assert Tokenize("[---]") == Ok([RangeToken('-', '-')]) by {
      SingleRange(false, '-', '-', "[---]");
    }
  }

  /** Sets, plain and negated. */
  lemma ExamplesSets()
    ensures Tokenize("[abc]") == Ok([SetToken("abc")])
    ensures Tokenize("[!abc]") == Ok([NegSetToken("abc")])
  {
    assert Tokenize("[abc]") == Ok([SetToken("abc")]) by {
      SingleSet(false, "abc", "[abc]");
    }
    assert Tokenize("[!abc]") == Ok([NegSetToken("abc")]) by {
      SingleSet(true, "abc", "[!abc]");
    }
  }

  /** `?`, `*` and `[` are plain members inside a bracket. */
  lemma ExamplesSpecialMembers()
    ensures Tokenize("[[]") == Ok([SetToken("[")])
    ensures Tokenize("[?]") == Ok([SetToken("?")])
    ensures Tokenize("[*]") == Ok([SetToken("*")])
  {
    assert Tokenize("[[]") == Ok([SetToken("[")]) by {
      SingleSet(false, "[", "[[]");
    }
    assert Tokenize("[?]") == Ok([SetToken("?")]) by {
      SingleSet(false, "?", "[?]");
    }
    assert Tokenize("[*]") == Ok([SetToken("*")]) by {
      SingleSet(false, "*", "[*]");
    }
  }

  /** `?`, `*` and `[` are plain members inside a negated bracket too. */
  lemma ExamplesNegatedSpecialMembers()
    ensures Tokenize("[![]") == Ok([NegSetToken("[")])
    ensures Tokenize("[!?]") == Ok([NegSetToken("?")])
    ensures Tokenize("[!*]") == Ok([NegSetToken("*")])
  {
    assert Tokenize("[![]") == Ok([NegSetToken("[")]) by {
      SingleSet(true, "[", "[![]");
    }
    assert Tokenize("[!?]") == Ok([NegSetToken("?")]) by {
      SingleSet(true, "?", "[!?]");
    }
    assert Tokenize("[!*]") == Ok([NegSetToken("*")]) by {
      SingleSet(true, "*", "[!*]");
    }
  }

  /** `]` right after `[` or `[!` is a member. */
  lemma ExamplesPositionRules()
    ensures Tokenize("[]]") == Ok([SetToken("]")])
    ensures Tokenize("[]a]") == Ok([SetToken("]a")])
    ensures Tokenize("[!]]") == Ok([NegSetToken("]")])
    ensures Tokenize("[!]a]") == Ok([NegSetToken("]a")])
  {
    assert Tokenize("[]]") == Ok([SetToken("]")]) by {
      SingleSet(false, "]", "[]]");
    }
    assert Tokenize("[]a]") == Ok([SetToken("]a")]) by {
      SingleSet(false, "]a", "[]a]");
    }
    assert Tokenize("[!]]") == Ok([NegSetToken("]")]) by {
      SingleSet(true, "]", "[!]]");
    }
    assert Tokenize("[!]a]") == Ok([NegSetToken("]a")]) by {
      SingleSet(true, "]a", "[!]a]");
    }
  }

  /** `!` after `[!` is a member; `-` not in the middle of three code points is a member. */
  lemma ExamplesBangAndDash()
    ensures Tokenize("[!!]") == Ok([NegSetToken("!")])
    ensures Tokenize("[!-]") == Ok([NegSetToken("-")])
    ensures Tokenize("[!-a]") == Ok([NegSetToken("-a")])
  {
    assert Tokenize("[!!]") == Ok([NegSetToken("!")]) by {
      SingleSet(true, "!", "[!!]");
    }
    assert Tokenize("[!-]") == Ok([NegSetToken("-")]) by {
      SingleSet(true, "-", "[!-]");
    }
    assert Tokenize("[!-a]") == Ok([NegSetToken("-a")]) by {
      SingleSet(true, "-a", "[!-a]");
    }
  }

  /** A `]` that does not close anything is literal after the bracket it follows. */
  lemma ExamplesTrailingBracket()
    ensures Tokenize("[a]]") == Ok([SetToken("a"), Exact("]")])
    ensures Tokenize("[a-]]") == Ok([SetToken("a-"), Exact("]")])
  {
    var ts := [SetToken("a"), Exact("]")];
    assert Serialize(ts) == "[a]]" by {
      assert ts[1..] == [Exact("]")];
    }
    TokenizeSerialize(ts);
    ts := [SetToken("a-"), Exact("]")];
    assert Serialize(ts) == "[a-]]" by {
      assert ts[1..] == [Exact("]")];
    }
    TokenizeSerialize(ts);
  }

  /** The literal runs of the mixed pattern; kept apart so that `MixedWellFormed`
      stays small. */
  lemma MixedLiteralsOk()
    ensures ExactOk("Hello ") && ExactOk("! Choose between ") && ExactOk(" and ")
  {
  }

  /** The tokens of the mixed pattern of the table are well formed. */
  lemma MixedWellFormed(ts: seq<Token>)
    requires ts == [Exact("Hello "), RangeToken('A', 'Z'), All, Exact("! Choose between "), Any, Exact(" and "), Any]
    ensures WellFormed(ts)
  {
    MixedLiteralsOk();
    forall i | 0 <= i < |ts| ensures TokenOk(ts[i]) {}
  }

  /** The tokens of the mixed pattern of the table write out that pattern. */
  lemma MixedSerialize(ts: seq<Token>)
    requires ts == [Exact("Hello "), RangeToken('A', 'Z'), All, Exact("! Choose between "), Any, Exact(" and "), Any]
    ensures Serialize(ts) == "Hello " + "[A-Z]" + "*" + "! Choose between " + "?" + " and " + "?"
  {
    var a := [Exact("Hello "), RangeToken('A', 'Z'), All];
    var b := [Exact("! Choose between "), Any, Exact(" and "), Any];
    assert ts == a + b;
    SerializeAppend(a, b);
    assert Serialize(a) == "Hello " + "[A-Z]" + "*" by {
      assert a[1..][1..] == [All];
    }
    assert Serialize(b) == "! Choose between " + "?" + " and " + "?" by {
      assert b[1..][1..] == [Exact(" and "), Any];
      assert b[1..][1..][1..] == [Any];
    }
  }

  /** The mixed pattern of the table. */
  lemma ExampleMixed()
    ensures Tokenize("Hello " + "[A-Z]" + "*" + "! Choose between " + "?" + " and " + "?")
         == Ok([Exact("Hello "), RangeToken('A', 'Z'), All, Exact("! Choose between "), Any, Exact(" and "), Any])
  {
    var ts := [Exact("Hello "), RangeToken('A', 'Z'), All, Exact("! Choose between "), Any, Exact(" and "), Any];
    MixedWellFormed(ts);
    MixedSerialize(ts);
    TokenizeSerialize(ts);
  }

  /** Ill-formed patterns: every one of them ends inside a bracket, `[]` and `[!]` included. */
  lemma ExamplesUnclosed()
    ensures Tokenize("[") == Err(Unclosed)
    ensures Tokenize("[a") == Err(Unclosed)
    ensures Tokenize("[]") == Err(Unclosed)
    ensures Tokenize("[!]") == Err(Unclosed)
  {
    assert "[a"[..1] == "[" && "[]"[..1] == "[" && "[!]"[..2] == "[!" && "[!"[..1] == "[";
    assert "["[..0] == [];
  }
}
