/** The generator of strings matching a glob: each token of the pattern becomes a
    generator of string fragments, and one fragment per token is joined, in token
    order, with no separator.

    The generators themselves belong to the property-testing engine; here each is
    described by a `Gen` value, a `Draw` stands for the engine's random choice, and
    `Admissible` says which choices the engine can make. */
module MatchingGlob {
  import opened TokenizeGlob

  /** How a range endpoint becomes a number: `OrMinusOne` is the source's
      `codePointAt(0) || -1`, which turns U+0000 into -1; `Itself` is the code point. */
  datatype Endpoint = OrMinusOne | Itself

  function CodePoint(rule: Endpoint, c: char): (r: int)
    ensures r == -1 <==> rule == OrMinusOne && c == '\0'
    ensures r != -1 ==> r == c as int
  {
    if rule == OrMinusOne && c == '\0' then -1 else c as int
  }

  /** What building a string from a code point gives: the string, a range error for a
      number that is no code point, or a lone surrogate (a string with no `char` form). */
  datatype Built = Str(s: seq<char>) | RangeError | LoneSurrogate

  /** `String.fromCodePoint(n)`. */
  function FromCodePoint(n: int): (r: Built)
    ensures r == RangeError <==> n < 0 || n > 0x10FFFF
    ensures r.Str? <==> 0 <= n <= 0x10FFFF && !(0xD800 <= n <= 0xDFFF)
    ensures r.Str? ==> |r.s| == 1 && r.s[0] as int == n
  {
    if n < 0 || n > 0x10FFFF then RangeError
    else if 0xD800 <= n <= 0xDFFF then LoneSurrogate
    else Str([n as char])
  }

  /** One entry of a constant mapping: `num` values, the `n`-th built from code point `n + offset`. */
  datatype Bucket = Bucket(num: int, offset: int)

  /** The generators a token is translated to. */
  datatype Gen =
    | CharArb                                     // the character generator
    | StringOfCharArb                             // strings of characters of the character generator
    | MapToConstant(first: Bucket, second: Bucket)
    | IntegerMapped(min: int, max: int)           // an integer in [min, max], mapped through FromCodePoint
    | FilteredCharArb(excluded: seq<char>)        // the character generator, members of `excluded` filtered out
    | ConstantFrom(values: seq<char>)             // one of `values`
    | Constant(value: seq<char>)

  /** The per-token translation. */
  function Translate(rule: Endpoint, t: Token): (g: Gen)
    ensures t.Any? <==> g.CharArb?
    ensures t.All? <==> g.StringOfCharArb?
    ensures t.Exact? <==> g.Constant?
    ensures t.Exact? ==> g.value == t.value
  {
    match t
    case Any => CharArb
    case All => StringOfCharArb
    case Disjunction(negate, Range(from, to)) =>
      var min := CodePoint(rule, from);
      var max := CodePoint(rule, to);
      if negate then MapToConstant(Bucket(min - 0x20, 0x20), Bucket(0x7e - max, max + 1))
      else IntegerMapped(min, max)
    case Disjunction(negate, Set(values)) =>
      if negate then FilteredCharArb(values) else ConstantFrom(values)
    case Exact(value) => Constant(value)
  }

  /** The engine's random choice for one generator: an integer, or the characters it drew. */
  datatype Draw = Index(n: int) | Pieces(parts: seq<seq<char>>)

  /** Concatenation of fragments with no separator. */
  function Join(parts: seq<seq<char>>): (r: seq<char>)
    ensures parts == [] ==> r == []
    ensures |parts| == 1 ==> r == parts[0]
  {
    if parts == [] then [] else parts[0] + Join(parts[1..])
  }

  predicate AllIn(parts: seq<seq<char>>, charArb: set<seq<char>>)
  {
    forall i :: 0 <= i < |parts| ==> parts[i] in charArb
  }

  /** Whether a drawn character is in the filtered-out set of a negated set. */
  predicate Excluded(c: seq<char>, values: seq<char>)
  {
    |c| == 1 && c[0] in values
  }

  /** The choices the engine can make for generator `g` when characters come from `charArb`.
      A constant mapping with a negative count admits none: what the engine does with one
      is not part of this model. */
  predicate Admissible(g: Gen, charArb: set<seq<char>>, d: Draw)
  {
    match g
    case CharArb => d.Pieces? && |d.parts| == 1 && d.parts[0] in charArb
    case StringOfCharArb => d.Pieces? && AllIn(d.parts, charArb)
    case MapToConstant(first, second) =>
      d.Index? && 0 <= first.num && 0 <= second.num && 0 <= d.n < first.num + second.num
    case IntegerMapped(min, max) => d.Index? && min <= d.n <= max
    case FilteredCharArb(excluded) =>
      d.Pieces? && |d.parts| == 1 && d.parts[0] in charArb && !Excluded(d.parts[0], excluded)
    case ConstantFrom(values) => d.Index? && 0 <= d.n < |values|
    case Constant(_) => true
  }

  /** The fragment generator `g` produces for the choice `d`; a constant mapping picks
      the first bucket for indices below its count and the second one after. */
  function Sample(g: Gen, charArb: set<seq<char>>, d: Draw): Built
    requires Admissible(g, charArb, d)
  {
    match g
    case CharArb => Str(d.parts[0])
    case StringOfCharArb => Str(Join(d.parts))
    case MapToConstant(first, second) =>
      if d.n < first.num then FromCodePoint(d.n + first.offset)
      else FromCodePoint(d.n - first.num + second.offset)
    case IntegerMapped(_, _) => FromCodePoint(d.n)
    case FilteredCharArb(_) => Str(d.parts[0])
    case ConstantFrom(values) => Str([values[d.n]])
    case Constant(value) => Str(value)
  }

  predicate Printable(c: char)
  {
    ' ' <= c <= '~'
  }

  /** What a token means in a glob, over the characters `charArb` offers: the fragments
      a string matching the pattern may have at that token's place. A negated range
      means a printable ASCII character outside the range. */
  ghost predicate TokenAllows(t: Token, charArb: set<seq<char>>, s: seq<char>)
  {
    match t
    case Any => s in charArb
    case All => exists parts :: AllIn(parts, charArb) && Join(parts) == s
    case Exact(value) => s == value
    case Disjunction(false, Range(from, to)) => |s| == 1 && from <= s[0] <= to
    case Disjunction(true, Range(from, to)) => |s| == 1 && Printable(s[0]) && !(from <= s[0] <= to)
    case Disjunction(false, Set(values)) => |s| == 1 && s[0] in values
    case Disjunction(true, Set(values)) => s in charArb && !Excluded(s, values)
  }

  /** A negated range is written low end first. */
  predicate NegatedRangeOrdered(t: Token)
  {
    t.Disjunction? && t.negate && t.body.Range? ==> t.body.from <= t.body.to
  }

  /** A negated range lies within printable ASCII, so both bucket counts are non-negative. */
  predicate NegatedRangePrintable(t: Token)
  {
    t.Disjunction? && t.negate && t.body.Range? ==> ' ' <= t.body.from && t.body.to <= '~'
  }

  /** The two buckets of a negated range, under either reading of the endpoints: the first
      builds code points from U+0020 up to just below the low end, the second from just above
      the high end up to U+007E. */
  lemma NegatedRangeBuckets(rule: Endpoint, from: char, to: char, charArb: set<seq<char>>, k: int)
    requires Admissible(Translate(rule, Disjunction(true, Range(from, to))), charArb, Index(k))
    ensures Sample(Translate(rule, Disjunction(true, Range(from, to))), charArb, Index(k)) != RangeError
    ensures var b := Sample(Translate(rule, Disjunction(true, Range(from, to))), charArb, Index(k));
            b.Str? ==> (|b.s| == 1 &&
              var c := b.s[0] as int;
              if k < CodePoint(rule, from) - 0x20 then 0x20 <= c < CodePoint(rule, from)
              else CodePoint(rule, to) < c <= 0x7e)
  {
  }

  /** The two readings of the endpoints give the same generators for `t`: always under the
      corrected reading, and under the reading as written when no range endpoint is U+0000. */
  predicate EndpointsAgree(rule: Endpoint, t: Token)
  {
    rule == OrMinusOne && t.Disjunction? && t.body.Range? ==> t.body.from != '\0' && t.body.to != '\0'
  }

  lemma TranslateRules(rule: Endpoint, t: Token)
    requires EndpointsAgree(rule, t)
    ensures Translate(rule, t) == Translate(Itself, t)
  {
  }

  /** Every fragment the translated generator produces is allowed by the token, and none
      is a range error. */
  lemma TranslateSound(rule: Endpoint, t: Token, charArb: set<seq<char>>, d: Draw)
    requires NegatedRangeOrdered(t) && EndpointsAgree(rule, t)
    requires Admissible(Translate(rule, t), charArb, d)
    ensures Sample(Translate(rule, t), charArb, d) != RangeError
    ensures Sample(Translate(rule, t), charArb, d).Str? ==> TokenAllows(t, charArb, Sample(Translate(rule, t), charArb, d).s)
  {
    TranslateRules(rule, t);
    match t
    case Any =>
    case All =>
      assert AllIn(d.parts, charArb) && Join(d.parts) == Join(d.parts);
    case Exact(_) =>
    case Disjunction(negate, Range(from, to)) =>
      if negate {
        var n := if d.n < from as int - 0x20 then d.n + 0x20 else d.n - (from as int - 0x20) + to as int + 1;
        assert Sample(Translate(rule, t), charArb, d) == FromCodePoint(n);
        assert 0x20 <= n <= 0x7e;
        assert n < from as int || n > to as int;
      }
    case Disjunction(negate, Set(values)) =>
  }

  /** A negated range written high end first, `[!a-\U{1}]`: its second bucket starts
      just above U+0001, so it draws U+0002, a control character the token does not allow. */
  lemma ReversedNegatedRangeEscapes(charArb: set<seq<char>>)
    ensures Admissible(Translate(Itself, Disjunction(true, Range('a', '\U{1}'))), charArb, Index(65))
    ensures Sample(Translate(Itself, Disjunction(true, Range('a', '\U{1}'))), charArb, Index(65)) == Str(['\U{2}'])
    ensures !TokenAllows(Disjunction(true, Range('a', '\U{1}')), charArb, ['\U{2}'])
  {
  }

  /** Every fragment the token allows is produced by some choice of the translated generator
      (for a negated range, one within printable ASCII). */
  lemma TranslateComplete(rule: Endpoint, t: Token, charArb: set<seq<char>>, s: seq<char>)
    requires NegatedRangePrintable(t) && EndpointsAgree(rule, t)
    requires TokenAllows(t, charArb, s)
    ensures exists d :: Admissible(Translate(rule, t), charArb, d) && Sample(Translate(rule, t), charArb, d) == Str(s)
  {
    TranslateRules(rule, t);
    var g := Translate(rule, t);
    match t
    case Any =>
      assert Admissible(g, charArb, Pieces([s])) && Sample(g, charArb, Pieces([s])) == Str(s);
    case All =>
      var parts :| AllIn(parts, charArb) && Join(parts) == s;
      assert Admissible(g, charArb, Pieces(parts)) && Sample(g, charArb, Pieces(parts)) == Str(s);
    case Exact(_) =>
      assert Admissible(g, charArb, Index(0)) && Sample(g, charArb, Index(0)) == Str(s);
    case Disjunction(negate, Range(from, to)) =>
      var c := s[0] as int;
      assert s == [s[0]];
      if negate {
        var first := from as int - 0x20;
        var k := if c < from as int then c - 0x20 else first + c - to as int - 1;
        assert Admissible(g, charArb, Index(k)) && Sample(g, charArb, Index(k)) == Str(s);
      } else {
        assert Admissible(g, charArb, Index(c)) && Sample(g, charArb, Index(c)) == Str(s);
      }
    case Disjunction(negate, Set(values)) =>
      if negate {
        assert Admissible(g, charArb, Pieces([s])) && Sample(g, charArb, Pieces([s])) == Str(s);
      } else {
        var k :| 0 <= k < |values| && values[k] == s[0];
        assert s == [s[0]];
        assert Admissible(g, charArb, Index(k)) && Sample(g, charArb, Index(k)) == Str(s);
      }
  }

  /** A fragment followed by the rest of the output; the first failure in token order wins. */
  function Prepend(fragment: Built, rest: Built): (r: Built)
    ensures r.Str? <==> fragment.Str? && rest.Str?
    ensures r.Str? ==> r.s == fragment.s + rest.s
    ensures r == RangeError ==> fragment == RangeError || rest == RangeError
  {
    match fragment
    case Str(s) => (match rest case Str(more) => Str(s + more) case _ => rest)
    case _ => fragment
  }

  /** The choices for a token list: one admissible choice per token. */
  predicate AllAdmissible(rule: Endpoint, ts: seq<Token>, charArb: set<seq<char>>, draws: seq<Draw>)
  {
    |draws| == |ts| && forall i :: 0 <= i < |ts| ==> Admissible(Translate(rule, ts[i]), charArb, draws[i])
  }

  /** The generated string: one fragment per token, in token order, joined with no separator. */
  function Output(rule: Endpoint, ts: seq<Token>, charArb: set<seq<char>>, draws: seq<Draw>): Built
    requires AllAdmissible(rule, ts, charArb, draws)
  {
    if ts == [] then Str([])
    else
      assert Admissible(Translate(rule, ts[0]), charArb, draws[0]);
      Prepend(Sample(Translate(rule, ts[0]), charArb, draws[0]), Output(rule, ts[1..], charArb, draws[1..]))
  }

  /** A glob matcher over tokens: `s` splits into one fragment per token, in order, each
      allowed by its token. */
  ghost predicate MatchesTokens(ts: seq<Token>, charArb: set<seq<char>>, s: seq<char>)
    decreases |ts|
  {
    if ts == [] then s == []
    else exists k :: 0 <= k <= |s| && TokenAllows(ts[0], charArb, s[..k]) && MatchesTokens(ts[1..], charArb, s[k..])
  }

  /** Every string generated for a token list matches it, and generation never raises a range error. */
  lemma {:induction false} OutputSound(rule: Endpoint, ts: seq<Token>, charArb: set<seq<char>>, draws: seq<Draw>)
    requires forall i :: 0 <= i < |ts| ==> NegatedRangeOrdered(ts[i]) && EndpointsAgree(rule, ts[i])
    requires AllAdmissible(rule, ts, charArb, draws)
    ensures Output(rule, ts, charArb, draws) != RangeError
    ensures Output(rule, ts, charArb, draws).Str? ==> MatchesTokens(ts, charArb, Output(rule, ts, charArb, draws).s)
  {
    if ts != [] {
      var g := Translate(rule, ts[0]);
      assert NegatedRangeOrdered(ts[0]) && EndpointsAgree(rule, ts[0]);
      assert Admissible(g, charArb, draws[0]);
      TranslateSound(rule, ts[0], charArb, draws[0]);
      assert AllAdmissible(rule, ts[1..], charArb, draws[1..]) by {
        forall i | 0 <= i < |ts[1..]| ensures Admissible(Translate(rule, ts[1..][i]), charArb, draws[1..][i]) {
          assert ts[1..][i] == ts[i + 1] && draws[1..][i] == draws[i + 1];
        }
      }
      OutputSound(rule, ts[1..], charArb, draws[1..]);
      var out := Output(rule, ts, charArb, draws);
      if out.Str? {
        var head := Sample(g, charArb, draws[0]).s;
        var k := |head|;
        assert out.s[..k] == head && out.s[k..] == Output(rule, ts[1..], charArb, draws[1..]).s;
      }
    }
  }

  /** The choices for a non-empty token list: a choice for its first token, then choices for the rest. */
  lemma OutputCons(rule: Endpoint, ts: seq<Token>, charArb: set<seq<char>>, d: Draw, rest: seq<Draw>)
    requires ts != [] && Admissible(Translate(rule, ts[0]), charArb, d)
    requires AllAdmissible(rule, ts[1..], charArb, rest)
    ensures AllAdmissible(rule, ts, charArb, [d] + rest)
    ensures Output(rule, ts, charArb, [d] + rest)
         == Prepend(Sample(Translate(rule, ts[0]), charArb, d), Output(rule, ts[1..], charArb, rest))
  {
    var draws := [d] + rest;
    assert draws[1..] == rest;
    forall i | 0 <= i < |ts| ensures Admissible(Translate(rule, ts[i]), charArb, draws[i]) {
      if i > 0 {
        assert ts[i] == ts[1..][i - 1];
      }
    }
  }

  /** Choices for the rest of a token list that produce the rest of `s` extend to choices for
      the whole list, when the first token allows the first part of `s`. */
  lemma CompleteCons(rule: Endpoint, ts: seq<Token>, charArb: set<seq<char>>, s: seq<char>, k: nat, rest: seq<Draw>)
    requires ts != [] && k <= |s| && NegatedRangePrintable(ts[0]) && EndpointsAgree(rule, ts[0]) && TokenAllows(ts[0], charArb, s[..k])
    requires AllAdmissible(rule, ts[1..], charArb, rest) && Output(rule, ts[1..], charArb, rest) == Str(s[k..])
    ensures exists draws :: AllAdmissible(rule, ts, charArb, draws) && Output(rule, ts, charArb, draws) == Str(s)
  {
    TranslateComplete(rule, ts[0], charArb, s[..k]);
    var d :| Admissible(Translate(rule, ts[0]), charArb, d) && Sample(Translate(rule, ts[0]), charArb, d) == Str(s[..k]);
    OutputCons(rule, ts, charArb, d, rest);
    assert s[..k] + s[k..] == s;
    assert Output(rule, ts, charArb, [d] + rest) == Str(s);
  }

  /** Every string that matches a token list is generated for it by some choices. */
  lemma {:induction false} OutputComplete(rule: Endpoint, ts: seq<Token>, charArb: set<seq<char>>, s: seq<char>)
    requires forall i :: 0 <= i < |ts| ==> NegatedRangePrintable(ts[i]) && EndpointsAgree(rule, ts[i])
    requires MatchesTokens(ts, charArb, s)
    ensures exists draws :: AllAdmissible(rule, ts, charArb, draws) && Output(rule, ts, charArb, draws) == Str(s)
    decreases |ts|
  {
    if ts == [] {
      assert AllAdmissible(rule, ts, charArb, []) && Output(rule, ts, charArb, []) == Str(s);
    } else {
      var k :| 0 <= k <= |s| && TokenAllows(ts[0], charArb, s[..k]) && MatchesTokens(ts[1..], charArb, s[k..]);
      assert NegatedRangePrintable(ts[0]) && EndpointsAgree(rule, ts[0]);
      forall i | 0 <= i < |ts[1..]| ensures NegatedRangePrintable(ts[1..][i]) && EndpointsAgree(rule, ts[1..][i]) {
        assert ts[1..][i] == ts[i + 1];
      }
      OutputComplete(rule, ts[1..], charArb, s[k..]);
      var rest :| AllAdmissible(rule, ts[1..], charArb, rest) && Output(rule, ts[1..], charArb, rest) == Str(s[k..]);
      CompleteCons(rule, ts, charArb, s, k, rest);
    }
  }

  /** The string the generator built from `pattern` produces for the choices `draws`,
      or the tokenizer's error. */
  datatype Generated = Thrown(error: GlobError) | Produced(out: Built)

  function Generate(rule: Endpoint, pattern: seq<char>, charArb: set<seq<char>>, draws: seq<Draw>): (r: Generated)
    requires Tokenize(pattern).Ok? ==> AllAdmissible(rule, Tokenize(pattern).value, charArb, draws)
    ensures r.Thrown? <==> Tokenize(pattern).Err?
  {
    match Tokenize(pattern)
    case Err(e) => Thrown(e)
    case Ok(ts) => Produced(Output(rule, ts, charArb, draws))
  }

  /** Every string generated from a pattern matches the pattern's tokens. */
  lemma GenerateSound(rule: Endpoint, pattern: seq<char>, charArb: set<seq<char>>, draws: seq<Draw>)
    requires Tokenize(pattern).Ok? ==> AllAdmissible(rule, Tokenize(pattern).value, charArb, draws)
    requires Tokenize(pattern).Ok? ==> forall t | t in Tokenize(pattern).value :: NegatedRangeOrdered(t) && EndpointsAgree(rule, t)
    ensures Generate(rule, pattern, charArb, draws) != Produced(RangeError)
    ensures var g := Generate(rule, pattern, charArb, draws);
            g.Produced? && g.out.Str? ==> MatchesTokens(Tokenize(pattern).value, charArb, g.out.s)
  {
    if Tokenize(pattern).Ok? {
      var ts := Tokenize(pattern).value;
      assert forall i :: 0 <= i < |ts| ==> NegatedRangeOrdered(ts[i]) && EndpointsAgree(rule, ts[i]) by {
        forall i | 0 <= i < |ts| ensures NegatedRangeOrdered(ts[i]) && EndpointsAgree(rule, ts[i]) {
          assert ts[i] in ts;
        }
      }
      OutputSound(rule, ts, charArb, draws);
    }
  }

  /** The default character generator: one printable ASCII character. */
  function DefaultCharArb(): (r: set<seq<char>>)
    ensures forall s :: s in r <==> |s| == 1 && Printable(s[0])
  {
    var r := set c: char | ' ' <= c <= '~' :: [c];
    assert forall s :: |s| == 1 && Printable(s[0]) ==> s == [s[0]];
    r
  }

  // ---------------------------------------------------------------------------------
  // The reverse mapping of a non-negated range: a generated string back to its integer.

  /** A value handed to the reverse mapping: a string or anything else. */
  datatype JsValue = JsString(value: seq<char>) | NotAString

  datatype UnmapError = InvalidType | EmptyString | MultipleCodePoints

  datatype Unmapped = Unmapped(n: int) | Refused(why: UnmapError)

  /** The length of a string in UTF-16 code units: two for a code point above U+FFFF. */
  function Utf16Length(s: seq<char>): (r: nat)
    ensures |s| <= r <= 2 * |s|
    ensures r == 0 <==> s == []
  {
    if s == [] then 0 else (if s[0] as int > 0xFFFF then 2 else 1) + Utf16Length(s[1..])
  }

  /** The reverse mapping as written: it refuses whenever there is a second UTF-16 code unit,
      and reads the code point with `codePointAt(0) || -1`. */
  function UnmapAsWritten(v: JsValue): (r: Unmapped)
    ensures r == Refused(InvalidType) <==> v.NotAString?
    ensures r == Refused(EmptyString) <==> v.JsString? && v.value == []
    ensures r == Refused(MultipleCodePoints) <==> v.JsString? && Utf16Length(v.value) >= 2
  {
    match v
    case NotAString => Refused(InvalidType)
    case JsString(s) =>
      if Utf16Length(s) == 0 then Refused(EmptyString)
      else if Utf16Length(s) >= 2 then Refused(MultipleCodePoints)
      else Unmapped(CodePoint(OrMinusOne, s[0]))
  }

  /** The reverse mapping: it refuses whenever there is a second code point, and reads the
      code point itself. */
  function Unmap(v: JsValue): (r: Unmapped)
    ensures r == Refused(InvalidType) <==> v.NotAString?
    ensures r == Refused(EmptyString) <==> v.JsString? && v.value == []
    ensures r == Refused(MultipleCodePoints) <==> v.JsString? && |v.value| >= 2
  {
    match v
    case NotAString => Refused(InvalidType)
    case JsString(s) =>
      if |s| == 0 then Refused(EmptyString)
      else if |s| >= 2 then Refused(MultipleCodePoints)
      else Unmapped(CodePoint(Itself, s[0]))
  }

  /** The reverse mapping undoes the forward one for every integer that builds a string. */
  lemma UnmapRoundTrip(n: int)
    requires FromCodePoint(n).Str?
    ensures Unmap(JsString(FromCodePoint(n).s)) == Unmapped(n)
  {
  }

  /** The forward mapping undoes the reverse one: an accepted string is the one built from its integer. */
  lemma UnmapInverse(v: JsValue)
    requires Unmap(v).Unmapped?
    ensures v.JsString? && FromCodePoint(Unmap(v).n) == Str(v.value)
  {
    assert v.value == [v.value[0]];
  }

  /** As written, the round trip holds from 1 to U+FFFF. */
  lemma UnmapAsWrittenRoundTrip(n: int)
    requires 1 <= n <= 0xFFFF && !(0xD800 <= n <= 0xDFFF)
    ensures UnmapAsWritten(JsString(FromCodePoint(n).s)) == Unmapped(n)
  {
    var s := FromCodePoint(n).s;
    assert Utf16Length(s) == 1 by {
      assert s[1..] == [];
    }
  }

  /** As written, a single code point above U+FFFF is refused as several code points. */
  lemma UnmapAsWrittenRefusesAstral(n: int)
    requires 0xFFFF < n <= 0x10FFFF
    ensures FromCodePoint(n).Str? && |FromCodePoint(n).s| == 1
    ensures UnmapAsWritten(JsString(FromCodePoint(n).s)) == Refused(MultipleCodePoints)
  {
    var s := FromCodePoint(n).s;
    assert Utf16Length(s) == 2 by {
      assert s[1..] == [];
    }
  }

  /** As written, U+0000 maps back to -1 rather than 0. */
  lemma UnmapAsWrittenNul()
    ensures FromCodePoint(0) == Str("\0")
    ensures UnmapAsWritten(JsString("\0")) == Unmapped(-1)
  {
    assert Utf16Length("\0") == 1 by {
      assert "\0"[1..] == [];
    }
  }

  /** As written, a range starting at U+0000 admits the integer -1, whose string is a range error. */
  lemma AsWrittenNulRangeThrows(charArb: set<seq<char>>)
    ensures Admissible(Translate(OrMinusOne, Disjunction(false, Range('\0', 'a'))), charArb, Index(-1))
    ensures Sample(Translate(OrMinusOne, Disjunction(false, Range('\0', 'a'))), charArb, Index(-1)) == RangeError
  {
  }

  /** As written, the range `[\0-\0]` never yields U+0000: every admissible choice is a range error. */
  lemma AsWrittenNulOnlyRangeNeverYields(charArb: set<seq<char>>, d: Draw)
    requires Admissible(Translate(OrMinusOne, Disjunction(false, Range('\0', '\0'))), charArb, d)
    ensures Sample(Translate(OrMinusOne, Disjunction(false, Range('\0', '\0'))), charArb, d) == RangeError
  {
  }
}
