/** What the tokenizer promises about its output, proved of the specification
    function `Tokenize`:
    - its output is a well-formed token list that serializes back to the pattern;
    - every well-formed token list is what the tokenizer gives for its serialization;
    - its only possible failure is an unclosed bracket: the "empty set" error is never raised. */
module TokenizeLaws {
  import opened TokenizeGlob
  import opened GlobSerialize

  /** A literal run as the tokenizer emits it: not empty, no wildcard, no `[`. */
  predicate ExactOk(value: seq<char>)
  {
    value != [] && '?' !in value && '*' !in value && '[' !in value
  }

  /** A range written `[from-to]` or `[!from-to]` reads back as that range:
      an unnegated `from` is not `!`, and `to` is not `]`. */
  predicate RangeOk(negate: bool, from: char, to: char)
  {
    (!negate ==> from != '!') && to != ']'
  }

  /** A set body reads back as that set: not empty, an unnegated body does not
      start with `!`, `]` appears only first, and it is not three code points
      with `-` in the middle (that shape is a range). */
  predicate SetOk(negate: bool, values: seq<char>)
  {
    && values != []
    && (!negate ==> values[0] != '!')
    && (forall i :: 1 <= i < |values| ==> values[i] != ']')
    && !(|values| == 3 && values[1] == '-')
  }

  predicate TokenOk(t: Token)
  {
    match t
    case Any => true
    case All => true
    case Exact(value) => ExactOk(value)
    case Disjunction(negate, Range(from, to)) => RangeOk(negate, from, to)
    case Disjunction(negate, Set(values)) => SetOk(negate, values)
  }

  predicate NoAdjacentExact(ts: seq<Token>)
  {
    forall i :: 0 < i < |ts| ==> !(ts[i - 1].Exact? && ts[i].Exact?)
  }

  /** The token lists the tokenizer can produce. */
  predicate WellFormed(ts: seq<Token>)
  {
    (forall i :: 0 <= i < |ts| ==> TokenOk(ts[i])) && NoAdjacentExact(ts)
  }

  lemma WellFormedSnoc(ts: seq<Token>, t: Token)
    requires WellFormed(ts) && TokenOk(t)
    requires t.Exact? && ts != [] ==> !ts[|ts| - 1].Exact?
    ensures WellFormed(ts + [t])
  {
    var r := ts + [t];
    forall i | 0 <= i < |r| ensures TokenOk(r[i]) {
      if i < |ts| { assert r[i] == ts[i]; }
    }
    forall i | 0 < i < |r| ensures !(r[i - 1].Exact? && r[i].Exact?) {
      if i < |ts| { assert r[i - 1] == ts[i - 1] && r[i] == ts[i]; }
    }
  }

  // ---------------------------------------------------------------------------
  // The tokenizer's output is well formed and serializes back to the pattern.

  /** What holds of the scan after reading `q` from the start, outside brackets:
      the pending run is plain text and the tokens so far do not end with a literal run. */
  predicate InvNormal(s: Scan, q: seq<char>)
  {
    && s.index == |q|
    && WellFormed(s.tokens)
    && '?' !in s.acc && '*' !in s.acc && '[' !in s.acc
    && (s.tokens == [] || !s.tokens[|s.tokens| - 1].Exact?)
    && Serialize(s.tokens) + s.acc == q
  }

  /** A bracket body can start with `]`, and, when negated, with `!`; no other `]` is in it. */
  predicate BodyOk(negate: bool, body: seq<char>)
  {
    && (!negate && body != [] ==> body[0] != '!')
    && (forall i :: 1 <= i < |body| ==> body[i] != ']')
  }

  /** What holds of the scan after reading `q` from the start, inside a bracket:
      the index counts the opening and the body, an unnegated body does not start
      with `!`, and `]` can only be the first body character. */
  predicate InvBracket(s: Scan, q: seq<char>)
    requires s.mode.Bracket?
  {
    && s.index == |q|
    && WellFormed(s.tokens)
    && s.mode.since + |Opening(s.negate)| + |s.acc| == s.index
    && BodyOk(s.negate, s.acc)
    && Serialize(s.tokens) + Opening(s.negate) + s.acc == q
  }

  predicate Inv(s: Scan, q: seq<char>)
  {
    if s.mode.Normal? then InvNormal(s, q) else InvBracket(s, q)
  }

  /** Leaving the normal mode emits the pending run, keeping the tokens well formed
      and their text equal to what was read. */
  lemma FlushInv(s: Scan, q: seq<char>)
    requires Inv(s, q) && s.mode.Normal?
    ensures WellFormed(Flush(s.tokens, s.acc))
    ensures Serialize(Flush(s.tokens, s.acc)) == q
  {
    if s.acc != [] {
      WellFormedSnoc(s.tokens, Exact(s.acc));
      SerializeSnoc(s.tokens, Exact(s.acc));
    }
  }

  lemma StepNormalInv(s: Scan, q: seq<char>, c: char)
    requires Inv(s, q) && s.mode.Normal?
    ensures Step(s, c).Ok? && Inv(Step(s, c).value, q + [c])
  {
    var flushed := Flush(s.tokens, s.acc);
    if c == '?' || c == '*' {
      FlushInv(s, q);
      var t := if c == '?' then Any else All;
      WellFormedSnoc(flushed, t);
      SerializeSnoc(flushed, t);
    } else if c == '[' {
      FlushInv(s, q);
    } else {
      assert (Serialize(s.tokens) + s.acc) + [c] == Serialize(s.tokens) + (s.acc + [c]);
    }
  }

  /** `!` right after `[` negates the bracket. */
  lemma StepBangInv(s: Scan, q: seq<char>)
    requires s.mode.Bracket? && InvBracket(s, q) && s.index == s.mode.since + 1
    ensures Step(s, '!') == Ok(s.(index := s.index + 1, negate := true))
    ensures InvBracket(Step(s, '!').value, q + ['!'])
  {
    assert s.acc == [] && !s.negate;
    assert Opening(true) == Opening(false) + ['!'];
  }

  /** The token a bracket body closes to is well formed and written back as that bracket. */
  lemma CloseOk(negate: bool, body: seq<char>)
    requires body != [] && BodyOk(negate, body)
    ensures TokenOk(Close(negate, body))
    ensures SerializeToken(Close(negate, body)) == Opening(negate) + body + [']']
  {
    if |body| == 3 && body[1] == '-' {
      assert body == [body[0], '-', body[2]];
    }
  }

  /** A `]` that is not in a literal position closes a non-empty body. */
  lemma CloseStep(s: Scan)
    requires s.mode.Bracket? && s.mode.since + |Opening(s.negate)| + |s.acc| == s.index
    requires !LiteralBracketPosition(s)
    ensures s.acc != []
    ensures Step(s, ']') == Ok(Scan(s.index + 1, Normal, false, [], s.tokens + [Close(s.negate, s.acc)]))
  {
  }

  /** Appending the token of a closed body keeps the tokens well formed. */
  lemma CloseWellFormed(tokens: seq<Token>, negate: bool, body: seq<char>)
    requires WellFormed(tokens) && body != [] && BodyOk(negate, body)
    ensures WellFormed(tokens + [Close(negate, body)])
  {
    CloseOk(negate, body);
    WellFormedSnoc(tokens, Close(negate, body));
  }

  /** Appending the token of a closed body adds the bracket's text. */
  lemma CloseSerialize(tokens: seq<Token>, negate: bool, body: seq<char>, q: seq<char>)
    requires body != [] && BodyOk(negate, body)
    requires Serialize(tokens) + Opening(negate) + body == q
    ensures Serialize(tokens + [Close(negate, body)]) + [] == q + [']']
  {
    CloseOk(negate, body);
    SerializeSnoc(tokens, Close(negate, body));
  }

  /** A closing `]` emits the token of the body, which is well formed and reads back as the bracket. */
  lemma StepCloseInv(s: Scan, q: seq<char>)
    requires s.mode.Bracket? && InvBracket(s, q) && !LiteralBracketPosition(s)
    ensures s.acc != []
    ensures Step(s, ']') == Ok(Scan(s.index + 1, Normal, false, [], s.tokens + [Close(s.negate, s.acc)]))
    ensures InvNormal(Step(s, ']').value, q + [']'])
  {
    CloseStep(s);
    CloseWellFormed(s.tokens, s.negate, s.acc);
    CloseSerialize(s.tokens, s.negate, s.acc, q);
    var tokens := s.tokens + [Close(s.negate, s.acc)];
    assert tokens[|tokens| - 1] == Close(s.negate, s.acc);
  }

  /** Any other character inside a bracket joins the body. */
  lemma StepBodyInv(s: Scan, q: seq<char>, c: char)
    requires s.mode.Bracket? && InvBracket(s, q)
    requires !(c == '!' && s.index == s.mode.since + 1)
    requires !(c == ']' && !LiteralBracketPosition(s))
    ensures Step(s, c) == Ok(s.(index := s.index + 1, acc := s.acc + [c]))
    ensures InvBracket(Step(s, c).value, q + [c])
  {
    var acc' := s.acc + [c];
    if c == ']' {
      assert s.acc == [];
    }
    forall i | 1 <= i < |acc'| ensures acc'[i] != ']' {
      if i < |s.acc| { assert acc'[i] == s.acc[i]; }
    }
    assert Serialize(s.tokens) + Opening(s.negate) + s.acc + [c]
        == Serialize(s.tokens) + Opening(s.negate) + acc';
  }

  lemma StepBracketInv(s: Scan, q: seq<char>, c: char)
    requires s.mode.Bracket? && InvBracket(s, q)
    ensures Step(s, c).Ok? && Inv(Step(s, c).value, q + [c])
  {
    if c == '!' && s.index == s.mode.since + 1 {
      StepBangInv(s, q);
    } else if c == ']' && !LiteralBracketPosition(s) {
      StepCloseInv(s, q);
    } else {
      StepBodyInv(s, q, c);
    }
  }

  lemma {:induction false} RunInv(p: seq<char>)
    ensures Run(Start, p).Ok? && Inv(Run(Start, p).value, p)
    decreases |p|
  {
    if p != [] {
      var q := p[..|p| - 1];
      RunInv(q);
      var s := Run(Start, q).value;
      assert q + [p[|p| - 1]] == p;
      if s.mode.Normal? {
        StepNormalInv(s, q, p[|p| - 1]);
      } else {
        StepBracketInv(s, q, p[|p| - 1]);
      }
    }
  }

  /** The tokenizer loses nothing and emits only well-formed token lists: its output
      serializes back to the pattern, has no empty, wildcard-holding or adjacent
      literal runs, and every bracket token reads back as itself. */
  lemma TokenizeSound(p: seq<char>)
    ensures Tokenize(p).Ok? ==> WellFormed(Tokenize(p).value) && Serialize(Tokenize(p).value) == p
  {
    RunInv(p);
    var s := Run(Start, p).value;
    if s.mode.Normal? {
      FlushInv(s, p);
    }
  }

  /** A closing `]` always has at least one body character before it. */
  lemma CloseBodyNonEmpty(p: seq<char>)
    requires Run(Start, p).Ok? && Run(Start, p).value.mode.Bracket?
    requires !LiteralBracketPosition(Run(Start, p).value)
    ensures Run(Start, p).value.acc != []
  {
    RunInv(p);
  }

  /** The only failure is the unclosed bracket: the "empty set" error of the source
      cannot be raised, so `[]` and `[!]` fail as unclosed brackets. */
  lemma TokenizeOnlyFailsUnclosed(p: seq<char>)
    ensures Tokenize(p).Err? ==> Tokenize(p).error == Unclosed
  {
    RunInv(p);
  }

  // ---------------------------------------------------------------------------
  // Every well-formed token list is what the tokenizer gives for its text.

  /** Literal characters outside brackets only grow the pending run. */
  lemma {:induction false} RunLiteral(s: Scan, v: seq<char>)
    requires s.mode.Normal?
    requires '?' !in v && '*' !in v && '[' !in v
    ensures Run(s, v) == Ok(s.(index := s.index + |v|, acc := s.acc + v))
    decreases |v|
  {
    if v != [] {
      var v', c := v[..|v| - 1], v[|v| - 1];
      assert c in v;
      assert forall x :: x in v' ==> x in v;
      RunLiteral(s, v');
      var t := s.(index := s.index + |v'|, acc := s.acc + v');
      assert Run(s, v) == Step(t, c);
      assert s.acc + v' + [c] == s.acc + v;
    } else {
      assert s.acc + v == s.acc;
    }
  }

  /** Inside a bracket, a character that neither negates nor closes joins the body. */
  lemma StepBodyChar(t: Scan, c: char)
    requires t.mode.Bracket?
    requires !(c == '!' && t.index == t.mode.since + 1)
    requires !(c == ']' && !LiteralBracketPosition(t))
    ensures Step(t, c) == Ok(t.(index := t.index + 1, acc := t.acc + [c]))
  {
  }

  /** A scan followed by one more step is the scan of one more character. */
  lemma RunSnoc(s: Scan, p: seq<char>, c: char, t: Scan, t': Scan)
    requires Run(s, p) == Ok(t) && Step(t, c) == Ok(t')
    ensures Run(s, p + [c]) == Ok(t')
  {
    assert (p + [c])[..|p|] == p;
  }

  /** Every prefix of a bracket body is a bracket body. */
  lemma BodyOkPrefix(negate: bool, body: seq<char>)
    requires BodyOk(negate, body) && body != []
    ensures BodyOk(negate, body[..|body| - 1])
  {
    var body' := body[..|body| - 1];
    forall i | 1 <= i < |body'| ensures body'[i] != ']' {
      assert body'[i] == body[i];
    }
    if body' != [] {
      assert body'[0] == body[0];
    }
  }

  /** The last character of a bracket body, read after the rest of it, joins the body. */
  lemma BodyLastStep(s: Scan, body: seq<char>)
    requires s.mode.Bracket? && s.index == s.mode.since + |Opening(s.negate)|
    requires BodyOk(s.negate, body) && body != []
    ensures var body', c := body[..|body| - 1], body[|body| - 1];
            (Step(s.(index := s.index + |body'|, acc := body'), c)
             == Ok(s.(index := s.index + |body|, acc := body)))
  {
    var body', c := body[..|body| - 1], body[|body| - 1];
    var t := s.(index := s.index + |body'|, acc := body');
    if c == '!' {
      assert |body'| > 0 || s.negate;
    }
    if c == ']' {
      assert |body'| == 0;
    }
    StepBodyChar(t, c);
    assert body' + [c] == body;
  }

  /** The body of a bracket, read right after `[` or `[!`, only grows the pending body. */
  lemma {:induction false} RunBody(s: Scan, body: seq<char>)
    requires s.mode.Bracket? && s.acc == []
    requires s.index == s.mode.since + |Opening(s.negate)|
    requires BodyOk(s.negate, body)
    ensures Run(s, body) == Ok(s.(index := s.index + |body|, acc := body))
    decreases |body|
  {
    if body != [] {
      var body', c := body[..|body| - 1], body[|body| - 1];
      BodyOkPrefix(s.negate, body);
      RunBody(s, body');
      BodyLastStep(s, body);
      RunSnoc(s, body', c, s.(index := s.index + |body'|, acc := body'), s.(index := s.index + |body|, acc := body));
      assert body' + [c] == body;
    }
  }

  /** `[` or `[!` read in the normal mode flushes the pending run and opens a bracket. */
  lemma RunOpening(s: Scan, negate: bool) returns (s': Scan)
    requires s.mode.Normal?
    ensures Run(s, Opening(negate)) == Ok(s')
    ensures s' == Scan(s.index + |Opening(negate)|, Bracket(s.index), negate, [], Flush(s.tokens, s.acc))
  {
    var open := Scan(s.index + 1, Bracket(s.index), false, [], Flush(s.tokens, s.acc));
    assert Run(s, "[") == Ok(open) by {
      assert "["[..0] == [];
    }
    s' := if negate then open.(index := open.index + 1, negate := true) else open;
    if negate {
      assert "[!"[..1] == "[";
    }
  }

  /** A bracket body and its closing `]`, read right after `[` or `[!`, emit the body's token. */
  lemma RunBodyClose(s: Scan, body: seq<char>) returns (s': Scan)
    requires s.mode.Bracket? && s.acc == []
    requires s.index == s.mode.since + |Opening(s.negate)|
    requires body != [] && BodyOk(s.negate, body)
    ensures Run(s, body + "]") == Ok(s')
    ensures s' == Scan(s.index + |body| + 1, Normal, false, [], s.tokens + [Close(s.negate, body)])
  {
    RunBody(s, body);
    var full := s.(index := s.index + |body|, acc := body);
    RunAppend(s, body, "]");
    assert Run(full, "]") == Step(full, ']') by {
      assert "]"[..0] == [];
    }
    s' := Scan(s.index + |body| + 1, Normal, false, [], s.tokens + [Close(s.negate, body)]);
  }

  /** The text of a bracket token, read in the normal mode, adds exactly that token. */
  lemma RunDisjunction(s: Scan, negate: bool, body: Alternatives) returns (s': Scan)
    requires s.mode.Normal? && TokenOk(Disjunction(negate, body))
    ensures Run(s, SerializeToken(Disjunction(negate, body))) == Ok(s')
    ensures s'.mode.Normal? && s'.acc == []
    ensures s'.tokens == Flush(s.tokens, s.acc) + [Disjunction(negate, body)]
  {
    var chars := if body.Range? then [body.from, '-', body.to] else body.values;
    assert SerializeToken(Disjunction(negate, body)) == Opening(negate) + (chars + "]");
    assert Close(negate, chars) == Disjunction(negate, body);
    var inside := RunOpening(s, negate);
    s' := RunBodyClose(inside, chars);
    RunAppend(s, Opening(negate), chars + "]");
  }

  /** The text of one token, read in the normal mode, adds exactly that token. */
  lemma RunToken(s: Scan, t: Token) returns (s': Scan)
    requires s.mode.Normal? && TokenOk(t)
    requires t.Exact? ==> s.acc == []
    ensures Run(s, SerializeToken(t)) == Ok(s')
    ensures s'.mode.Normal?
    ensures Flush(s'.tokens, s'.acc) == Flush(s.tokens, s.acc) + [t]
    ensures s'.acc != [] ==> t.Exact?
  {
    match t
    case Any =>
      assert SerializeToken(t) == [] + ['?'];
      s' := Step(s, '?').value;
    case All =>
      assert SerializeToken(t) == [] + ['*'];
      s' := Step(s, '*').value;
    case Exact(v) =>
      RunLiteral(s, v);
      assert s.acc + v == v;
      s' := s.(index := s.index + |v|, acc := v);
    case Disjunction(negate, body) =>
      s' := RunDisjunction(s, negate, body);
  }

  /** The tail of a well-formed token list is well formed, and follows its head as the head allows. */
  lemma WellFormedTail(ts: seq<Token>)
    requires WellFormed(ts) && ts != []
    ensures TokenOk(ts[0]) && WellFormed(ts[1..])
    ensures |ts| > 1 && ts[0].Exact? ==> !ts[1..][0].Exact?
  {
    var rest := ts[1..];
    assert TokenOk(ts[0]);
    forall i | 0 < i < |rest| ensures !(rest[i - 1].Exact? && rest[i].Exact?) {
      assert rest[i - 1] == ts[i] && rest[i] == ts[i + 1];
    }
    if |ts| > 1 {
      assert rest[0] == ts[1];
    }
  }

  /** Two scans in a row are the scan of the concatenation. */
  lemma RunThen(s: Scan, a: seq<char>, b: seq<char>, s1: Scan, s2: Scan)
    requires Run(s, a) == Ok(s1) && Run(s1, b) == Ok(s2)
    ensures Run(s, a + b) == Ok(s2)
  {
    RunAppend(s, a, b);
  }

  /** Concatenation of token lists is associative; kept apart so that the proof of
      `RunSerialize` does not carry the sequence axioms it needs. */
  lemma AppendAssoc(a: seq<Token>, b: seq<Token>, c: seq<Token>)
    ensures (a + b) + c == a + (b + c)
  {
  }

  /** The text of a well-formed token list, read in the normal mode, adds exactly those tokens. */
  lemma {:induction false} RunSerialize(s: Scan, ts: seq<Token>) returns (s': Scan)
    requires s.mode.Normal? && WellFormed(ts)
    requires s.acc != [] && ts != [] ==> !ts[0].Exact?
    ensures Run(s, Serialize(ts)) == Ok(s')
    ensures s'.mode.Normal?
    ensures Flush(s'.tokens, s'.acc) == Flush(s.tokens, s.acc) + ts
    decreases |ts|
  {
    if ts == [] {
      s' := s;
      return;
    }
    var t, rest := ts[0], ts[1..];
    WellFormedTail(ts);
    var s1 := RunToken(s, t);
    assert s1.acc != [] && rest != [] ==> !rest[0].Exact?;
    s' := RunSerialize(s1, rest);
    assert Run(s, Serialize(ts)) == Ok(s') by {
      assert Serialize(ts) == SerializeToken(t) + Serialize(rest);
      RunThen(s, SerializeToken(t), Serialize(rest), s1, s');
    }
    assert ts == [t] + rest;
    AppendAssoc(Flush(s.tokens, s.acc), [t], rest);
  }

  /** Round trip: tokenizing the text of a well-formed token list gives that list back. */
  lemma TokenizeSerialize(ts: seq<Token>)
    requires WellFormed(ts)
    ensures Tokenize(Serialize(ts)) == Ok(ts)
  {
    var s' := RunSerialize(Start, ts);
    assert [] + ts == ts;
  }

  /** The tokenizer is exactly the inverse of the serializer on well-formed token lists:
      `Tokenize(p)` is `Ok(ts)` if and only if `ts` is well formed and serializes to `p`. */
  lemma TokenizeIff(p: seq<char>, ts: seq<Token>)
    ensures Tokenize(p) == Ok(ts) <==> WellFormed(ts) && Serialize(ts) == p
  {
    TokenizeSound(p);
    if WellFormed(ts) && Serialize(ts) == p {
      TokenizeSerialize(ts);
    }
  }
}
