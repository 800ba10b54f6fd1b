/** The token-to-pattern serializer of the tokenizer's unit tests: each token
    written back in glob syntax, the pieces joined with no separator. */
module GlobSerialize {
  import opened TokenizeGlob

  /** `[` or `[!`: how a bracket expression opens. */
  function Opening(negate: bool): seq<char>
  {
    if negate then "[!" else "["
  }

  /** The glob text of one token. */
  function SerializeToken(t: Token): seq<char>
  {
    match t
    case All => "*"
    case Any => "?"
    case Disjunction(negate, Range(from, to)) => Opening(negate) + [from, '-', to] + "]"
    case Disjunction(negate, Set(values)) => Opening(negate) + values + "]"
    case Exact(value) => value
  }

  /** The glob text of a token list: the token texts joined in order. */
  function Serialize(ts: seq<Token>): seq<char>
  {
    if ts == [] then [] else SerializeToken(ts[0]) + Serialize(ts[1..])
  }

  /** Serializing a concatenation concatenates the serializations. */
  lemma {:induction false} SerializeAppend(a: seq<Token>, b: seq<Token>)
    ensures Serialize(a + b) == Serialize(a) + Serialize(b)
  {
    if a == [] {
      assert a + b == b;
    } else {
      assert (a + b)[1..] == a[1..] + b;
      SerializeAppend(a[1..], b);
    }
  }

  /** Serializing one more token appends that token's text. */
  lemma SerializeSnoc(ts: seq<Token>, t: Token)
    ensures Serialize(ts + [t]) == Serialize(ts) + SerializeToken(t)
  {
    SerializeAppend(ts, [t]);
    assert Serialize([t]) == SerializeToken(t) + Serialize([]);
  }
}
