/** The glob tokenizer: a single pass over the pattern with two modes
    (outside a bracket, inside a bracket opened at a known index).

    A pattern is a sequence of code points: one `char` per code point. */
module TokenizeGlob {

  /** What a bracket expression `[...]` accepts: a range `[a-z]` or a set `[abc]`. */
  datatype Alternatives = Range(from: char, to: char) | Set(values: seq<char>)

  /** The tokens of a glob pattern. */
  datatype Token =
    | Any                                            // `?`
    | All                                            // `*`
    | Exact(value: seq<char>)                        // a literal run
    | Disjunction(negate: bool, body: Alternatives)  // `[...]` or `[!...]`

  /** The two ways tokenizing can fail. */
  datatype GlobError =
    | EmptySet   // a bracket closed with nothing inside it
    | Unclosed   // the pattern ends inside a bracket

  datatype Result<T> = Ok(value: T) | Err(error: GlobError)

  /** Whether the scan is outside brackets, or inside a bracket whose `[` sits at `since`. */
  datatype Mode = Normal | Bracket(since: nat)

  /** Everything the scan keeps between two characters: the index of the next
      character, the mode, the negation flag, the pending text and the tokens so far. */
  datatype Scan = Scan(index: nat, mode: Mode, negate: bool, acc: seq<char>, tokens: seq<Token>)

  const Start := Scan(0, Normal, false, [], [])

  /** Emits the pending literal run, if there is one. */
  function Flush(tokens: seq<Token>, acc: seq<char>): seq<Token>
  {
    if acc != [] then tokens + [Exact(acc)] else tokens
  }

  /** The token a closing `]` emits for the body collected since `[`:
      a range when the body is three code points with `-` in the middle, a set otherwise. */
  function Close(negate: bool, body: seq<char>): Token
  {
    if |body| == 3 && body[1] == '-' then Disjunction(negate, Range(body[0], body[2]))
    else Disjunction(negate, Set(body))
  }

  /** True when a `]` at the scan's index is a literal body character rather than the
      closing delimiter: right after `[`, or right after `[!`. */
  predicate LiteralBracketPosition(s: Scan)
    requires s.mode.Bracket?
  {
    s.index == s.mode.since + 1 || (s.negate && s.index == s.mode.since + 2)
  }

  /** One character of the scan. */
  function Step(s: Scan, c: char): Result<Scan>
  {
    var next := s.index + 1;
    match s.mode
    case Normal =>
      if c == '?' then Ok(Scan(next, Normal, s.negate, [], Flush(s.tokens, s.acc) + [Any]))
      else if c == '*' then Ok(Scan(next, Normal, s.negate, [], Flush(s.tokens, s.acc) + [All]))
      else if c == '[' then Ok(Scan(next, Bracket(s.index), false, [], Flush(s.tokens, s.acc)))
      else Ok(s.(index := next, acc := s.acc + [c]))
    case Bracket(since) =>
      if c == '!' && s.index == since + 1 then Ok(s.(index := next, negate := true))
      else if c == ']' && !LiteralBracketPosition(s) then
        if |s.acc| == 0 then Err(EmptySet)
        else Ok(Scan(next, Normal, false, [], s.tokens + [Close(s.negate, s.acc)]))
      else Ok(s.(index := next, acc := s.acc + [c]))
  }

  /** Chains a scan result with the scan of more characters. */
  function Then(r: Result<Scan>, p: seq<char>): Result<Scan>
  {
    match r
    case Err(e) => Err(e)
    case Ok(s) => Run(s, p)
  }

  /** The scan of `p` from state `s`, character by character, stopping at the first error. */
  function Run(s: Scan, p: seq<char>): Result<Scan>
    decreases |p|, 0
  {
    if p == [] then Ok(s)
    else
      match Run(s, p[..|p| - 1])
      case Err(e) => Err(e)
      case Ok(t) => Step(t, p[|p| - 1])
  }

  /** The tokenizer: scan the whole pattern, refuse an unclosed bracket, emit the pending run. */
  function Tokenize(pattern: seq<char>): Result<seq<Token>>
  {
    match Run(Start, pattern)
    case Err(e) => Err(e)
    case Ok(s) => if s.mode.Bracket? then Err(Unclosed) else Ok(Flush(s.tokens, s.acc))
  }

  /** Scanning `a + b` is scanning `a`, then `b`. */
  lemma {:induction false} RunAppend(s: Scan, a: seq<char>, b: seq<char>)
    ensures Run(s, a + b) == Then(Run(s, a), b)
    decreases |b|
  {
    if b == [] {
      assert a + b == a;
    } else {
      var b' := b[..|b| - 1];
      assert (a + b)[..|a + b| - 1] == a + b';
      assert (a + b)[|a + b| - 1] == b[|b| - 1];
      RunAppend(s, a, b');
    }
  }

  /** An error while scanning a prefix is the error of the whole scan. */
  lemma {:induction false} RunErrPrefix(s: Scan, p: seq<char>, i: nat, e: GlobError)
    requires i <= |p|
    requires Run(s, p[..i]) == Err(e)
    ensures Run(s, p) == Err(e)
  {
    assert p == p[..i] + p[i..];
    RunAppend(s, p[..i], p[i..]);
  }

  /** The tokenizer as the source runs it: one loop over the pattern that updates
      the pending text, the bracket start, the negation flag and the token list. */
  method TokenizeGlob(pattern: seq<char>) returns (r: Result<seq<Token>>)
    ensures r == Tokenize(pattern)
  {
    var tokens: seq<Token> := [];
    var acc: seq<char> := [];
    var building: Mode := Normal;
    var negate := false;
    var index := 0;
    while index != |pattern|
      invariant index <= |pattern|
      invariant Run(Start, pattern[..index]) == Ok(Scan(index, building, negate, acc, tokens))
    {
      assert pattern[..index + 1][..index] == pattern[..index];
      var c := pattern[index];
      if building.Normal? {
        if c == '?' {
          if acc != [] {
            tokens := tokens + [Exact(acc)];
            acc := [];
          }
          tokens := tokens + [Any];
        } else if c == '*' {
          if acc != [] {
            tokens := tokens + [Exact(acc)];
            acc := [];
          }
          tokens := tokens + [All];
        } else if c == '[' {
          if acc != [] {
            tokens := tokens + [Exact(acc)];
            acc := [];
          }
          building := Bracket(index);
          negate := false;
          acc := [];
        } else {
          acc := acc + [c];
        }
      } else {
        if c == '!' {
          if index == building.since + 1 {
            negate := true;
          } else {
            acc := acc + [c];
          }
        } else if c == ']' {
          if index == building.since + 1 || (negate && index == building.since + 2) {
            acc := acc + [c];
          } else {
            if |acc| == 3 && acc[1] == '-' {
              tokens := tokens + [Disjunction(negate, Range(acc[0], acc[2]))];
            } else {
              if |acc| == 0 {
                RunErrPrefix(Start, pattern, index + 1, EmptySet);
                return Err(EmptySet);
              }
              tokens := tokens + [Disjunction(negate, Set(acc))];
            }
            building := Normal;
            negate := false;
            acc := [];
          }
        } else {
          acc := acc + [c];
        }
      }
      index := index + 1;
    }
    assert pattern[..index] == pattern;
    if building.Bracket? {
      return Err(Unclosed);
    }
    if acc != [] {
      tokens := tokens + [Exact(acc)];
    }
    r := Ok(tokens);
  }
}
