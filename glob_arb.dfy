/** The deterministic helpers of the tokenizer's round-trip test: the pass that merges
    adjacent literal runs, the reordering of set bodies, and the law they serve:
    tokenizing the serialized tokens gives the tokens back. */
module GlobArb {
  import opened TokenizeGlob
  import opened GlobSerialize
  import opened TokenizeLaws

  // ---------------------------------------------------------------------------
  // Merging adjacent literal runs.

  /** One step of the merge pass: push the token, or, when both it and the last
      pushed token are literal runs, replace that last token by their concatenation. */
  function MergeStep(nt: seq<Token>, t: Token): seq<Token>
  {
    if !t.Exact? || nt == [] || !nt[|nt| - 1].Exact? then nt + [t]
    else nt[|nt| - 1 := Exact(nt[|nt| - 1].value + t.value)]
  }

  /** The merge pass over a whole list, left to right. */
  function Merged(ts: seq<Token>): seq<Token>
  {
    if ts == [] then [] else MergeStep(Merged(ts[..|ts| - 1]), ts[|ts| - 1])
  }

  /** The merge pass as the test runs it: a loop that pushes onto a fresh list
      or overwrites its last element. */
  method MergeExactTokens(t: seq<Token>) returns (nt: seq<Token>)
    ensures nt == Merged(t)
  {
    nt := [];
    for i := 0 to |t|
      invariant nt == Merged(t[..i])
    {
      assert t[..i + 1][..i] == t[..i];
      var token := t[i];
      if !token.Exact? {
        nt := nt + [token];
      } else if nt == [] || !nt[|nt| - 1].Exact? {
        nt := nt + [token];
      } else {
        var previous := nt[|nt| - 1];
        nt := nt[|nt| - 1 := Exact(previous.value + token.value)];
      }
    }
    assert t[..|t|] == t;
  }

  /** The tokens that are not literal runs, in order. */
  function Others(ts: seq<Token>): seq<Token>
  {
    if ts == [] then [] else Others(ts[..|ts| - 1]) + (if ts[|ts| - 1].Exact? then [] else [ts[|ts| - 1]])
  }

  /** The last token of the merged list is a literal run exactly when the last input token is. */
  lemma MergedLast(ts: seq<Token>)
    requires ts != []
    ensures Merged(ts) != [] && Merged(ts)[|Merged(ts)| - 1].Exact? == ts[|ts| - 1].Exact?
  {
  }

  /** One merge step adds the text of the token. */
  lemma MergeStepSerialize(nt: seq<Token>, t: Token)
    ensures Serialize(MergeStep(nt, t)) == Serialize(nt) + SerializeToken(t)
  {
    if !t.Exact? || nt == [] || !nt[|nt| - 1].Exact? {
      SerializeSnoc(nt, t);
    } else {
      var front, last := nt[..|nt| - 1], nt[|nt| - 1];
      var joined := Exact(last.value + t.value);
      assert nt == front + [last];
      assert MergeStep(nt, t) == front + [joined];
      SerializeSnoc(front, last);
      SerializeSnoc(front, joined);
    }
  }

  /** Merging keeps the text: literal runs are concatenated in order. */
  lemma {:induction false} MergedSerialize(ts: seq<Token>)
    ensures Serialize(Merged(ts)) == Serialize(ts)
    decreases |ts|
  {
    if ts != [] {
      var init, t := ts[..|ts| - 1], ts[|ts| - 1];
      assert ts == init + [t];
      MergedSerialize(init);
      MergeStepSerialize(Merged(init), t);
      SerializeSnoc(init, t);
    }
  }

  /** Merging keeps the tokens that are not literal runs, in order. */
  lemma {:induction false} MergedOthers(ts: seq<Token>)
    ensures Others(Merged(ts)) == Others(ts)
    decreases |ts|
  {
    if ts != [] {
      var init, t := ts[..|ts| - 1], ts[|ts| - 1];
      MergedOthers(init);
      var nt := Merged(init);
      if !t.Exact? || nt == [] || !nt[|nt| - 1].Exact? {
        OthersSnoc(nt, t);
      } else {
        var front, last := nt[..|nt| - 1], nt[|nt| - 1];
        assert nt == front + [last];
        assert Merged(ts) == front + [Exact(last.value + t.value)];
        OthersSnoc(front, last);
        OthersSnoc(front, Exact(last.value + t.value));
      }
    }
  }

  /** Merging leaves no two literal runs side by side, and keeps every token
      acceptable to the tokenizer when every input token was. */
  lemma {:induction false} MergedWellFormed(ts: seq<Token>)
    ensures NoAdjacentExact(Merged(ts))
    ensures (forall i :: 0 <= i < |ts| ==> TokenOk(ts[i])) ==> WellFormed(Merged(ts))
    decreases |ts|
  {
    if ts != [] {
      var init, t := ts[..|ts| - 1], ts[|ts| - 1];
      MergedWellFormed(init);
      var nt := Merged(init);
      var allOk := forall i :: 0 <= i < |ts| ==> TokenOk(ts[i]);
      if allOk {
        forall i | 0 <= i < |init| ensures TokenOk(init[i]) { assert init[i] == ts[i]; }
      }
      if !t.Exact? || nt == [] || !nt[|nt| - 1].Exact? {
        var r := nt + [t];
        forall i | 0 < i < |r| ensures !(r[i - 1].Exact? && r[i].Exact?) {
          if i < |nt| { assert r[i - 1] == nt[i - 1] && r[i] == nt[i]; }
        }
        if allOk {
          WellFormedSnoc(nt, t);
        }
      } else {
        var front, last := nt[..|nt| - 1], nt[|nt| - 1];
        var r := front + [Exact(last.value + t.value)];
        assert Merged(ts) == r;
        forall i | 0 < i < |r| ensures !(r[i - 1].Exact? && r[i].Exact?) {
          assert r[i - 1] == nt[i - 1];
          if i < |front| { assert r[i] == nt[i]; }
        }
        if allOk {
          assert TokenOk(nt[|nt| - 1]);
          forall i | 0 <= i < |r| ensures TokenOk(r[i]) {
            if i < |front| { assert r[i] == nt[i]; }
          }
        }
      }
    }
  }

  lemma OthersSnoc(ts: seq<Token>, t: Token)
    ensures Others(ts + [t]) == Others(ts) + (if t.Exact? then [] else [t])
  {
    assert (ts + [t])[..|ts|] == ts;
  }

  /** A list without adjacent literal runs is left as it is, and only such a list is. */
  lemma {:induction false} MergedFixedPoint(ts: seq<Token>)
    ensures Merged(ts) == ts <==> NoAdjacentExact(ts)
    decreases |ts|
  {
    MergedWellFormed(ts);
    if ts != [] && NoAdjacentExact(ts) {
      var init := ts[..|ts| - 1];
      assert NoAdjacentExact(init) by {
        forall i | 0 < i < |init| ensures !(init[i - 1].Exact? && init[i].Exact?) {
          assert init[i - 1] == ts[i - 1] && init[i] == ts[i];
        }
      }
      MergedFixedPoint(init);
      assert ts == init + [ts[|ts| - 1]];
      if |init| > 0 {
        assert init[|init| - 1] == ts[|ts| - 2];
        MergedLast(init);
      }
    }
  }

  // ---------------------------------------------------------------------------
  // Reordering set bodies.

  /** No character occurs twice. */
  predicate Unique(u: seq<char>)
  {
    forall i, j :: 0 <= i < j < |u| ==> u[i] != u[j]
  }

  predicate Special(c: char)
  {
    c == ']' || c == '!' || c == '-'
  }

  /** The characters other than `]`, `!` and `-`, in order. */
  function Plain(u: seq<char>): (r: seq<char>)
    ensures forall i :: 0 <= i < |r| ==> !Special(r[i])
  {
    if u == [] then [] else (if Special(u[0]) then [] else [u[0]]) + Plain(u[1..])
  }

  /** The characters of `u` joined with `,` between them. */
  function CommaJoin(u: seq<char>): (r: seq<char>)
    ensures u == [] <==> r == []
    ensures (forall i :: 0 <= i < |u| ==> !Special(u[i])) ==> forall i :: 0 <= i < |r| ==> !Special(r[i])
  {
    if |u| <= 1 then u else [u[0], ','] + CommaJoin(u[1..])
  }

  /** Puts the special characters where the tokenizer reads them as set members:
      `]` first when present, otherwise `-` first; `!` after the plain characters,
      then `-` when `]` opened the body. */
  function Arrange(u: seq<char>, plain: seq<char>): seq<char>
  {
    var bang := if '!' in u then "!" else "";
    var dash := if '-' in u then "-" else "";
    if ']' in u then "]" + plain + bang + dash else dash + plain + bang
  }

  /** The reordering as the test writes it: the plain characters are spliced into a
      template string as an array, which joins them with commas. */
  function ReorderAsWritten(u: seq<char>): seq<char>
  {
    Arrange(u, CommaJoin(Plain(u)))
  }

  /** The reordering with the plain characters spliced in as they are. */
  function Reorder(u: seq<char>): seq<char>
  {
    Arrange(u, Plain(u))
  }

  lemma {:induction false} PlainCount(u: seq<char>, x: char)
    ensures multiset(Plain(u))[x] == if Special(x) then 0 else multiset(u)[x]
  {
    if u != [] {
      PlainCount(u[1..], x);
      assert u == [u[0]] + u[1..];
    }
  }

  lemma {:induction false} UniqueCount(u: seq<char>, x: char)
    requires Unique(u)
    ensures multiset(u)[x] == if x in u then 1 else 0
  {
    if u != [] {
      assert u == [u[0]] + u[1..];
      assert Unique(u[1..]) by {
        forall i, j | 0 <= i < j < |u[1..]| ensures u[1..][i] != u[1..][j] {
          assert u[1..][i] == u[i + 1] && u[1..][j] == u[j + 1];
        }
      }
      UniqueCount(u[1..], x);
      if x == u[0] {
        assert x !in u[1..] by {
          forall k | 0 <= k < |u[1..]| ensures u[1..][k] != x { assert u[1..][k] == u[k + 1]; }
        }
      }
    }
  }

  /** When nothing but specials is in `u`, the plain part is empty, and conversely. */
  lemma {:induction false} PlainEmpty(u: seq<char>)
    ensures Plain(u) == [] <==> forall i :: 0 <= i < |u| ==> Special(u[i])
  {
    if u != [] {
      PlainEmpty(u[1..]);
      assert forall i :: 1 <= i < |u| ==> u[i] == u[1..][i - 1];
    }
  }

  /** Arranging adds one of each special character present in `u` to `plain`. */
  lemma ArrangeCount(u: seq<char>, plain: seq<char>, x: char)
    ensures multiset(Arrange(u, plain))[x] == multiset(plain)[x] + if Special(x) && x in u then 1 else 0
  {
    var bang := if '!' in u then "!" else "";
    var dash := if '-' in u then "-" else "";
    if ']' in u {
      assert multiset(Arrange(u, plain)) == multiset("]") + multiset(plain) + multiset(bang) + multiset(dash);
    } else {
      assert multiset(Arrange(u, plain)) == multiset(dash) + multiset(plain) + multiset(bang);
    }
  }

  /** The reordering is a permutation of a body without repeats. */
  lemma ReorderPermutation(u: seq<char>)
    requires Unique(u)
    ensures multiset(Reorder(u)) == multiset(u)
  {
    forall x ensures multiset(Reorder(u))[x] == multiset(u)[x] {
      ArrangeCount(u, Plain(u), x);
      PlainCount(u, x);
      UniqueCount(u, x);
    }
  }

  /** A body without repeats made only of `!` characters is the body `!`. */
  lemma OnlyBang(u: seq<char>)
    requires Unique(u) && u != []
    ensures Plain(u) == [] && ']' !in u && '-' !in u ==> u == "!"
  {
    PlainEmpty(u);
    if Plain(u) == [] && ']' !in u && '-' !in u {
      UniqueCount(u, '!');
      assert u[0] == '!';
      assert forall x :: x != '!' ==> x !in multiset(u);
      assert multiset(u) == multiset{'!'};
      assert |u| == |multiset(u)|;
    }
  }

  /** Placing the specials this way makes the body read back as a set, whether negated or not. */
  lemma ArrangeSetOk(u: seq<char>, plain: seq<char>, negate: bool)
    requires Unique(u) && u != [] && u != "!"
    requires forall i :: 0 <= i < |plain| ==> !Special(plain[i])
    requires plain == [] ==> Plain(u) == []
    ensures SetOk(negate, Arrange(u, plain))
  {
    OnlyBang(u);
  }

  /** The reordered body of a non-empty body without repeats, other than the body `!`,
      starts with `]` exactly when `]` is in it, never starts with `!`, and reads back
      as a set. */
  lemma ReorderSetOk(u: seq<char>, negate: bool)
    requires Unique(u) && u != [] && u != "!"
    ensures SetOk(negate, Reorder(u))
    ensures Reorder(u)[0] == ']' <==> ']' in u
    ensures Reorder(u)[0] != '!'
  {
    ArrangeSetOk(u, Plain(u), negate);
    OnlyBang(u);
  }

  /** The written reordering also reads back as a set, so the test's round trip holds
      even though its bodies carry commas. */
  lemma ReorderAsWrittenSetOk(u: seq<char>, negate: bool)
    requires Unique(u) && u != [] && u != "!"
    ensures SetOk(negate, ReorderAsWritten(u))
  {
    ArrangeSetOk(u, CommaJoin(Plain(u)), negate);
  }

  /** The written reordering is not a permutation: with two plain characters it adds a comma. */
  lemma ReorderAsWrittenAddsComma()
    ensures ReorderAsWritten("ab") == "a,b"
    ensures multiset(ReorderAsWritten("ab")) != multiset("ab")
  {
    var u := "ab";
    assert ReorderAsWritten(u) == "a,b" by {
      assert Plain(u) == u by {
        assert u[1..] == "b";
        assert "b"[1..] == [];
      }
      assert CommaJoin(u) == "a,b" by {
        assert u[1..] == "b";
      }
      assert Arrange(u, "a,b") == "a,b" by {
        assert ']' !in u && '!' !in u && '-' !in u;
      }
    }
    assert |multiset("a,b")| == 3 && |multiset(u)| == 2;
  }

  // ---------------------------------------------------------------------------
  // The round trip of the test.

  /** What the test's generator draws for each token, before reordering and merging:
      a range whose `from` is not `!` and whose `to` is not `]`; a non-empty set body
      without repeats other than `!` alone; a non-empty literal without `?`, `*` or `[`. */
  predicate Drawable(t: Token)
  {
    match t
    case Any => true
    case All => true
    case Exact(value) => ExactOk(value)
    case Disjunction(_, Range(from, to)) => from != '!' && to != ']'
    case Disjunction(_, Set(values)) => Unique(values) && values != [] && values != "!"
  }

  /** A drawn token with its set body reordered: with the commas the test's template
      string puts in (`asWritten`), or with the plain characters spliced in as they are. */
  function Prepare(t: Token, asWritten: bool): Token
  {
    match t
    case Disjunction(negate, Set(values)) =>
      Disjunction(negate, Set(if asWritten then ReorderAsWritten(values) else Reorder(values)))
    case _ => t
  }

  /** The token list the test pairs with its pattern: bodies reordered, literal runs merged. */
  function GlobArbTokens(drawn: seq<Token>, asWritten: bool): seq<Token>
  {
    Merged(seq(|drawn|, i requires 0 <= i < |drawn| => Prepare(drawn[i], asWritten)))
  }

  /** The round-trip property of the test: tokenizing the pattern the test writes for
      any drawn token list gives back the reordered, merged tokens, whether the bodies
      are reordered with the test's commas or without them. */
  lemma GlobArbRoundTrip(drawn: seq<Token>, asWritten: bool)
    requires forall i :: 0 <= i < |drawn| ==> Drawable(drawn[i])
    ensures Tokenize(Serialize(GlobArbTokens(drawn, asWritten))) == Ok(GlobArbTokens(drawn, asWritten))
  {
    var prepared := seq(|drawn|, i requires 0 <= i < |drawn| => Prepare(drawn[i], asWritten));
    forall i | 0 <= i < |prepared| ensures TokenOk(prepared[i]) {
      var t := drawn[i];
      if t.Disjunction? && t.body.Set? {
        if asWritten {
          ReorderAsWrittenSetOk(t.body.values, t.negate);
        } else {
          ReorderSetOk(t.body.values, t.negate);
        }
      }
    }
    MergedWellFormed(prepared);
    TokenizeSerialize(Merged(prepared));
  }
}
