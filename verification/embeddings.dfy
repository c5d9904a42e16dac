/** The hashed bag-of-words embedding: text is lower-cased and cut into runs
    of ASCII letters and digits, each token is hashed with a 32-bit FNV-1a
    style hash computed on JavaScript numbers, and the tokens are counted
    into 256 buckets. Normalising the counts to unit length is floating
    point and is not part of this model; what is modelled is the count
    vector and the exact condition under which normalising leaves it zero. */
module SimpleEmbeddings {
  import opened Text

  const DIMENSIONS: nat := 256
  const FNV_SEED: int := 2166136261
  const FNV_PRIME: int := 16777619

  // ---------------------------------------------------------------------
  // Tokenising

  /** A character that survives as part of a token: `[a-z0-9]`. */
  predicate IsTokenChar(c: char) {
    ('a' <= c <= 'z') || ('0' <= c <= '9')
  }

  /** `replace(/[^a-z0-9\s]/g, " ")`: every character that is neither a
      token character nor whitespace becomes a space. */
  function Sanitize(s: string): (r: string)
    ensures |r| == |s|
    ensures forall i :: 0 <= i < |s| ==> r[i] == (if IsTokenChar(s[i]) || IsWhitespace(s[i]) then s[i] else ' ')
  {
    if s == [] then []
    else [if IsTokenChar(s[0]) || IsWhitespace(s[0]) then s[0] else ' '] + Sanitize(s[1..])
  }

  /** `s` holds no whitespace character. */
  predicate NoWhitespace(s: string) {
    forall i :: 0 <= i < |s| ==> !IsWhitespace(s[i])
  }

  /** Splitting at every whitespace character (`split(/\s/)`): the pieces
      between whitespace characters, empty ones included. Once empty pieces
      are dropped this is the same as `split(/\s+/)`. */
  function SplitOnWhitespace(s: string): (r: seq<string>)
    ensures |r| >= 1
    ensures forall k :: 0 <= k < |r| ==> NoWhitespace(r[k])
  {
    if s == [] then [[]]
    else
      var rest := SplitOnWhitespace(s[1..]);
      if IsWhitespace(s[0]) then [[]] + rest
      else [[s[0]] + rest[0]] + rest[1..]
  }

  /** `tokenize`: every token is non-empty and made of `[a-z0-9]` only. */
  function Tokenize(text: string): (tokens: seq<string>)
    ensures forall k :: 0 <= k < |tokens| ==>
      tokens[k] != [] && forall i :: 0 <= i < |tokens[k]| ==> IsTokenChar(tokens[k][i])
  {
    var s := Sanitize(ToLowerCase(text));
    var pieces := SplitOnWhitespace(s);
    assert forall k, i :: 0 <= k < |pieces| && 0 <= i < |pieces[k]| ==> IsTokenChar(pieces[k][i]) by {
      PiecesAreTokenChars(s);
    }
    NonEmpty(pieces)
  }

  lemma {:induction false} PiecesAreTokenChars(s: string)
    requires forall i :: 0 <= i < |s| ==> IsTokenChar(s[i]) || IsWhitespace(s[i])
    ensures forall k, i :: 0 <= k < |SplitOnWhitespace(s)| && 0 <= i < |SplitOnWhitespace(s)[k]| ==>
      IsTokenChar(SplitOnWhitespace(s)[k][i])
  {
    if s != [] {
      PiecesAreTokenChars(s[1..]);
    }
  }

  /** The token characters of `s`, in order, with everything else removed. */
  function TokenChars(s: string): string {
    if s == [] then [] else (if IsTokenChar(s[0]) then [s[0]] else []) + TokenChars(s[1..])
  }

  /** The pieces between whitespace, put back together, are the string
      without its whitespace. */
  lemma {:induction false} SplitConcat(s: string)
    requires forall i :: 0 <= i < |s| ==> IsTokenChar(s[i]) || IsWhitespace(s[i])
    ensures Concat(SplitOnWhitespace(s)) == TokenChars(s)
  {
    if s != [] {
      var c := s[0];
      SplitConcat(s[1..]);
      assert s == [c] + s[1..];
      SplitCons(c, s[1..]);
      assert IsTokenChar(c) == !IsWhitespace(c);
      ConcatCons(c, IsWhitespace(c), SplitOnWhitespace(s[1..]));
    }
  }

  /** Concatenating pieces after a character is put in front of them. */
  lemma ConcatCons(c: char, blank: bool, rest: seq<string>)
    requires |rest| >= 1
    ensures Concat(if blank then [[]] + rest else [[c] + rest[0]] + rest[1..])
      == (if blank then [] else [c]) + Concat(rest)
  {
    if blank {
      assert ([[]] + rest)[1..] == rest;
    } else {
      var r := [[c] + rest[0]] + rest[1..];
      assert r[0] == [c] + rest[0] && r[1..] == rest[1..];
    }
  }

  lemma {:induction false} SanitizeTokenChars(s: string)
    ensures TokenChars(Sanitize(s)) == TokenChars(s)
  {
    if s != [] {
      SanitizeTokenChars(s[1..]);
      assert Sanitize(s)[1..] == Sanitize(s[1..]);
    }
  }

  /** Tokenising loses no letter or digit of the lower-cased text and adds
      none: the tokens, concatenated, are its `[a-z0-9]` characters in
      order. */
  lemma TokensConcat(text: string)
    ensures Concat(Tokenize(text)) == TokenChars(ToLowerCase(text))
  {
    var s := Sanitize(ToLowerCase(text));
    NonEmptyConcat(SplitOnWhitespace(s));
    SplitConcat(s);
    SanitizeTokenChars(ToLowerCase(text));
  }

  lemma {:induction false} TokenCharsEmpty(s: string)
    ensures TokenChars(s) == [] <==> forall i :: 0 <= i < |s| ==> !IsTokenChar(s[i])
  {
    if s != [] {
      TokenCharsEmpty(s[1..]);
      assert forall i :: 1 <= i < |s| ==> s[i] == s[1..][i - 1];
    }
  }

  lemma {:induction false} ConcatEmpty(parts: seq<string>)
    requires forall k :: 0 <= k < |parts| ==> parts[k] != []
    ensures Concat(parts) == [] <==> parts == []
  {
  }

  /** The text yields no tokens exactly when its lower case has no `[a-z0-9]`
      character. */
  lemma TokenizeEmptyIff(text: string)
    ensures Tokenize(text) == [] <==> forall i :: 0 <= i < |ToLowerCase(text)| ==> !IsTokenChar(ToLowerCase(text)[i])
  {
    TokensConcat(text);
    TokenCharsEmpty(ToLowerCase(text));
    ConcatEmpty(Tokenize(text));
  }

  lemma {:induction false} LowerHasNoTokenChars(text: string)
    requires forall i :: 0 <= i < |text| ==>
      !('a' <= text[i] <= 'z') && !('A' <= text[i] <= 'Z') && !('0' <= text[i] <= '9')
      && text[i] != '\U{212A}' && text[i] != '\U{0130}'
    ensures forall i :: 0 <= i < |ToLowerCase(text)| ==> !IsTokenChar(ToLowerCase(text)[i])
  {
    if text != [] {
      LowerHasNoTokenChars(text[1..]);
    }
  }

  /** Text with no ASCII letter or digit (and neither KELVIN SIGN nor capital
      dotted I, whose lower cases are `k` and `i` plus a combining dot)
      yields no tokens. */
  lemma NoAlphanumericNoTokens(text: string)
    requires forall i :: 0 <= i < |text| ==>
      !('a' <= text[i] <= 'z') && !('A' <= text[i] <= 'Z') && !('0' <= text[i] <= '9')
      && text[i] != '\U{212A}' && text[i] != '\U{0130}'
    ensures Tokenize(text) == []
  {
    LowerHasNoTokenChars(text);
    TokenizeEmptyIff(text);
  }

  /** Sanitising works character by character, so it distributes over
      concatenation. */
  lemma {:induction false} SanitizeAppend(x: string, y: string)
    ensures Sanitize(x + y) == Sanitize(x) + Sanitize(y)
  {
    if x == [] {
      assert x + y == y;
    } else {
      assert (x + y)[0] == x[0] && (x + y)[1..] == x[1..] + y;
      SanitizeAppend(x[1..], y);
    }
  }

  /** A whitespace character ends the current piece and starts the next. */
  lemma {:induction false} SplitAtWhitespace(x: string, w: char, y: string)
    requires IsWhitespace(w)
    ensures SplitOnWhitespace(x + [w] + y) == SplitOnWhitespace(x) + SplitOnWhitespace(y)
  {
    if x == [] {
      assert x + [w] + y == [w] + y;
      SplitCons(w, y);
    } else {
      SplitAtWhitespace(x[1..], w, y);
      SplitAtWhitespaceStep(x, w, y);
    }
  }

  /** The inductive step of SplitAtWhitespace: one more character in front. */
  lemma SplitAtWhitespaceStep(x: string, w: char, y: string)
    requires x != []
    requires SplitOnWhitespace(x[1..] + [w] + y) == SplitOnWhitespace(x[1..]) + SplitOnWhitespace(y)
    ensures SplitOnWhitespace(x + [w] + y) == SplitOnWhitespace(x) + SplitOnWhitespace(y)
  {
    var c, t := x[0], x[1..] + [w] + y;
    assert x + [w] + y == [c] + t;
    assert x == [c] + x[1..];
    SplitCons(c, t);
    SplitCons(c, x[1..]);
    ConsOntoPieces(c, IsWhitespace(c), SplitOnWhitespace(x[1..]), SplitOnWhitespace(y));
  }

  /** Putting a character in front of pieces followed by more pieces. */
  lemma ConsOntoPieces(c: char, blank: bool, left: seq<string>, right: seq<string>)
    requires |left| >= 1
    ensures (if blank then [[]] + (left + right) else [[c] + (left + right)[0]] + (left + right)[1..])
      == (if blank then [[]] + left else [[c] + left[0]] + left[1..]) + right
  {
    if !blank {
      assert (left + right)[0] == left[0] && (left + right)[1..] == left[1..] + right;
    }
  }

  /** One character in front: whitespace starts a new piece, anything else
      joins the first piece. */
  lemma SplitCons(c: char, s: string)
    ensures SplitOnWhitespace([c] + s) ==
      if IsWhitespace(c) then [[]] + SplitOnWhitespace(s)
      else [[c] + SplitOnWhitespace(s)[0]] + SplitOnWhitespace(s)[1..]
  {
    assert ([c] + s)[0] == c && ([c] + s)[1..] == s;
  }

  /** A non-empty run of whitespace between two texts: the non-empty pieces
      are those of either side, in order. */
  lemma {:induction false} NonEmptyAcrossBlanks(x: string, ws: string, y: string)
    requires ws != [] && forall i :: 0 <= i < |ws| ==> IsWhitespace(ws[i])
    decreases |ws|
    ensures NonEmpty(SplitOnWhitespace(x + ws + y)) == NonEmpty(SplitOnWhitespace(x)) + NonEmpty(SplitOnWhitespace(y))
  {
    assert x + ws + y == x + [ws[0]] + (ws[1..] + y);
    SplitAtWhitespace(x, ws[0], ws[1..] + y);
    NonEmptyAppend(SplitOnWhitespace(x), SplitOnWhitespace(ws[1..] + y));
    if ws[1..] == [] {
      assert ws[1..] + y == y;
    } else {
      NonEmptyAcrossBlanks([], ws[1..], y);
      assert [] + ws[1..] + y == ws[1..] + y;
      NonEmptyAppend(SplitOnWhitespace([]), SplitOnWhitespace(y));
    }
  }

  /** `tokenize` cuts at every character whose lower case holds no letter or
      digit: the tokens of the text around it are those of either side. */
  lemma TokenizeSeparator(a: string, c: char, b: string)
    requires forall i :: 0 <= i < |LowerChar(c)| ==> !IsTokenChar(LowerChar(c)[i])
    ensures Tokenize(a + [c] + b) == Tokenize(a) + Tokenize(b)
  {
    ToLowerCaseAppend(a + [c], b);
    ToLowerCaseAppend(a, [c]);
    assert ToLowerCase([c]) == LowerChar(c) by {
      assert [c][1..] == [];
    }
    var la, lc, lb := ToLowerCase(a), LowerChar(c), ToLowerCase(b);
    SanitizeAppend(la + lc, lb);
    SanitizeAppend(la, lc);
    SanitizeBlanks(lc);
    NonEmptyAcrossBlanks(Sanitize(la), Sanitize(lc), Sanitize(lb));
  }

  /** A string without letters or digits sanitises to whitespace only. */
  lemma SanitizeBlanks(s: string)
    requires forall i :: 0 <= i < |s| ==> !IsTokenChar(s[i])
    ensures forall i :: 0 <= i < |Sanitize(s)| ==> IsWhitespace(Sanitize(s)[i])
  {
  }

  /** `tokenize` lower-cases first, so the tokens of a text are those of its
      lower case: with TokenizeSeparator and TokenizeRun applied to
      `ToLowerCase(text)`, the tokens of any text, capitals included, are
      the maximal `[a-z0-9]` runs of its lower case. */
  lemma TokenizeLower(text: string)
    ensures Tokenize(text) == Tokenize(ToLowerCase(text))
  {
    ToLowerCaseIdempotent(text);
  }

  /** A run whose lower case is all letters and digits, capitals included
      ("Ab"), is one token: its lower case. */
  lemma TokenizeRunAnyCase(w: string)
    requires w != [] && forall i :: 0 <= i < |ToLowerCase(w)| ==> IsTokenChar(ToLowerCase(w)[i])
    ensures Tokenize(w) == [ToLowerCase(w)]
  {
    TokenizeLower(w);
    TokenizeRun(ToLowerCase(w));
  }

  /** A string with no whitespace is one piece. */
  lemma {:induction false} SplitWithoutWhitespace(s: string)
    requires forall i :: 0 <= i < |s| ==> !IsWhitespace(s[i])
    ensures SplitOnWhitespace(s) == [s]
  {
    if s != [] {
      SplitWithoutWhitespace(s[1..]);
      assert [s[0]] + s[1..] == s;
    }
  }

  /** `tokenize` does not cut inside a run of letters and digits: such a run
      is one token. With TokenizeSeparator this pins the tokens to the
      maximal `[a-z0-9]` runs of the lower-cased text. */
  lemma TokenizeRun(w: string)
    requires w != [] && forall i :: 0 <= i < |w| ==> IsTokenChar(w[i])
    ensures Tokenize(w) == [w]
  {
    ToLowerCaseFixed(w);
    assert Sanitize(w) == w;
    SplitWithoutWhitespace(w);
    assert [w][1..] == [];
  }

  // ---------------------------------------------------------------------
  // Hashing on JavaScript numbers

  /** ToUint32: the number modulo 2^32. */
  function ToUint32(x: int): (r: int)
    ensures 0 <= r < 0x1_0000_0000
  {
    x % 0x1_0000_0000
  }

  /** ToInt32: the number modulo 2^32, read as two's complement. */
  function ToInt32(x: int): (r: int)
    ensures -0x8000_0000 <= r < 0x8000_0000
    ensures (r - x) % 0x1_0000_0000 == 0
  {
    var u := ToUint32(x);
    if u >= 0x8000_0000 then u - 0x1_0000_0000 else u
  }

  /** The bitwise exclusive or of two naturals, lowest bit first. */
  function XorBits(a: nat, b: nat): nat
    decreases a + b
  {
    if a == 0 && b == 0 then 0
    else 2 * XorBits(a / 2, b / 2) + (if a % 2 == b % 2 then 0 else 1)
  }

  /** `a ^ b` on numbers: bitwise exclusive or of their 32-bit forms. */
  function Xor(a: int, b: int): (r: int)
    ensures -0x8000_0000 <= r < 0x8000_0000
  {
    ToInt32(XorBits(ToUint32(a), ToUint32(b)))
  }

  /** `a` times `b` modulo 2^32, by shift and add over the bits of `b`,
      from the highest down. */
  function MulBits(a: nat, b: nat): (r: nat)
    ensures r < 0x1_0000_0000
  {
    if b == 0 then 0
    else (2 * MulBits(a, b / 2) + (if b % 2 == 1 then a else 0)) % 0x1_0000_0000
  }

  /** `Math.imul(a, b)`: the product of the 32-bit forms modulo 2^32, read
      as two's complement. */
  function Imul(a: int, b: int): (r: int)
    ensures -0x8000_0000 <= r < 0x8000_0000
  {
    ToInt32(MulBits(ToUint32(a), ToUint32(b)))
  }

  lemma DoubleRemainder(x: int, y: int)
    ensures (2 * (x % 0x1_0000_0000) + y) % 0x1_0000_0000 == (2 * x + y) % 0x1_0000_0000
  {
    var q := x / 0x1_0000_0000;
    assert 2 * x + y == (2 * (x % 0x1_0000_0000) + y) + 0x1_0000_0000 * (2 * q);
  }

  /** Halving the multiplier: `a * b` is twice `a * (b / 2)`, plus `a`
      when `b` is odd. */
  lemma ProductHalves(a: nat, b: nat)
    ensures a * b == 2 * (a * (b / 2)) + (if b % 2 == 1 then a else 0)
  {
    var c := b / 2;
    assert b == 2 * c + b % 2;
    assert a * b == a * (2 * c) + a * (b % 2);
  }

  /** Shift and add computes the product modulo 2^32. */
  lemma {:induction false} MulBitsIsProduct(a: nat, b: nat)
    ensures MulBits(a, b) == a * b % 0x1_0000_0000
  {
    if b > 0 {
      MulBitsIsProduct(a, b / 2);
      ProductHalves(a, b);
      MulBitsStep(a, b, a * (b / 2), a * b);
    }
  }

  /** One step of MulBitsIsProduct, stated without multiplication: if the
      shifted multiplier gives `p` modulo 2^32 and the full product is
      `2 * p` plus the low bit's share, the step gives the full product. */
  lemma MulBitsStep(a: nat, b: nat, p: int, ab: int)
    requires b > 0 && MulBits(a, b / 2) == p % 0x1_0000_0000
    requires ab == 2 * p + (if b % 2 == 1 then a else 0)
    ensures MulBits(a, b) == ab % 0x1_0000_0000
  {
    DoubleRemainder(p, if b % 2 == 1 then a else 0);
  }

  /** `Math.imul` is the product of the two numbers modulo 2^32, read as
      two's complement. */
  lemma ImulIsProduct(a: int, b: int)
    ensures Imul(a, b) == ToInt32(ToUint32(a) * ToUint32(b))
  {
    var ua, ub := ToUint32(a), ToUint32(b);
    var m, p := MulBits(ua, ub), ua * ub;
    MulBitsIsProduct(ua, ub);
    SameWord(m, p);
  }

  /** Numbers equal modulo 2^32 have the same two's complement reading. */
  lemma SameWord(x: int, y: int)
    requires 0 <= x < 0x1_0000_0000 && x == y % 0x1_0000_0000
    ensures ToInt32(x) == ToInt32(y)
  {
    assert ToUint32(x) == x;
  }

  /** The hash state after the characters of `s`: the seed, then for each
      character code `hash = imul(hash ^ code, 16777619)`. */
  function HashState(s: string): (h: int)
    ensures s != [] ==> -0x8000_0000 <= h < 0x8000_0000
    decreases s, 1
  {
    if s == [] then FNV_SEED else HashStep(s)
  }

  /** The state after the last character of a non-empty `s`: the state
      before it, mixed with that character's code. */
  function HashStep(s: string): (h: int)
    requires s != []
    ensures -0x8000_0000 <= h < 0x8000_0000
    decreases s, 0
  {
    Imul(Xor(HashState(s[..|s| - 1]), s[|s| - 1] as int), FNV_PRIME)
  }

  function Abs(x: int): nat {
    if x < 0 then -x else x
  }

  /** The value `hashToken` returns: the absolute value of the final
      state. */
  function TokenHash(token: string): nat {
    Abs(HashState(token))
  }

  /** `hashToken`, looping over the character codes. */
  method HashToken(token: string) returns (r: nat)
    ensures r == TokenHash(token)
    ensures token != [] ==> r <= 0x8000_0000
  {
    var hash := FNV_SEED;
    for i := 0 to |token|
      invariant hash == HashState(token[..i])
    {
      assert token[..i + 1][..i] == token[..i];
      assert HashStep(token[..i + 1]) == Imul(Xor(hash, token[i] as int), FNV_PRIME);
      hash := Xor(hash, token[i] as int);
      hash := Imul(hash, FNV_PRIME);
    }
    assert token[..|token|] == token;
    r := Abs(hash);
  }

  /** The bucket a token is counted in: `hashToken(token) % DIMENSIONS`. */
  function Bucket(token: string): (b: nat)
    ensures b < DIMENSIONS
  {
    TokenHash(token) % 256
  }

  // ---------------------------------------------------------------------
  // Counting

  function Zeros(n: nat): (z: seq<int>)
    ensures |z| == n && forall i :: 0 <= i < n ==> z[i] == 0
  {
    if n == 0 then [] else Zeros(n - 1) + [0]
  }

  /** A dimension of the embedding. */
  type Dim = b: nat | b < DIMENSIONS

  /** The bucket of each token, in order. */
  function Buckets(ts: seq<string>): (bs: seq<Dim>)
    ensures |bs| == |ts| && forall i :: 0 <= i < |ts| ==> bs[i] == Bucket(ts[i])
  {
    if ts == [] then [] else Buckets(ts[..|ts| - 1]) + [Bucket(ts[|ts| - 1])]
  }

  /** The vector after counting the buckets `bs`, one at a time, from all
      zeros. */
  function Counts(bs: seq<Dim>): (v: seq<int>)
    ensures |v| == DIMENSIONS
  {
    if bs == [] then Zeros(DIMENSIONS)
    else
      var v := Counts(bs[..|bs| - 1]);
      var b := bs[|bs| - 1];
      v[b := v[b] + 1]
  }

  /** The count vector of the tokens `ts`. */
  function CountVector(ts: seq<string>): (v: seq<int>)
    ensures |v| == DIMENSIONS
  {
    Counts(Buckets(ts))
  }

  /** Counting one more bucket adds one to its own entry. */
  lemma CountsStep(bs: seq<Dim>, k: nat)
    requires k < |bs|
    ensures Counts(bs[..k + 1]) == Counts(bs[..k])[bs[k] := Counts(bs[..k])[bs[k]] + 1]
  {
    assert bs[..k + 1][..k] == bs[..k];
  }

  /** The embedding before normalisation: the count vector of the text's
      tokens. */
  method BucketCounts(text: string) returns (vector: array<int>)
    ensures fresh(vector)
    ensures vector[..] == CountVector(Tokenize(text))
  {
    vector := CountTokens(Tokenize(text));
  }

  /** The loop of `embed`: a fresh 256-entry vector of zeros, incremented
      at the bucket of each token in turn. */
  method CountTokens(tokens: seq<string>) returns (vector: array<int>)
    ensures fresh(vector)
    ensures vector[..] == CountVector(tokens)
  {
    vector := new int[DIMENSIONS](_ => 0);
    ghost var buckets := Buckets(tokens);
    assert vector[..] == Zeros(DIMENSIONS);
    for k := 0 to |tokens|
      invariant vector.Length == DIMENSIONS
      invariant vector[..] == Counts(buckets[..k])
    {
      var h := HashToken(tokens[k]);
      var idx := h % 256;
      assert idx == buckets[k];
      CountsStep(buckets, k);
      vector[idx] := vector[idx] + 1;
    }
    assert buckets[..|tokens|] == buckets;
  }

  /** Entry `b` of the vector is the number of times `b` occurs in `bs`. */
  lemma {:induction false} CountsCounts(bs: seq<Dim>, b: Dim)
    ensures Counts(bs)[b] == multiset(bs)[b]
  {
    if bs != [] {
      var init := bs[..|bs| - 1];
      CountsCounts(init, b);
      assert bs == init + [bs[|bs| - 1]];
    }
  }

  /** Entry `b` of the count vector is the number of tokens whose bucket is
      `b` (collisions add up; nothing else is counted). */
  lemma CountVectorCounts(ts: seq<string>, b: nat)
    requires b < DIMENSIONS
    ensures CountVector(ts)[b] == multiset(Buckets(ts))[b]
  {
    CountsCounts(Buckets(ts), b);
  }

  function Sum(v: seq<int>): int {
    if v == [] then 0 else Sum(v[..|v| - 1]) + v[|v| - 1]
  }

  lemma {:induction false} SumUpdate(v: seq<int>, i: nat, x: int)
    requires i < |v|
    ensures Sum(v[i := x]) == Sum(v) - v[i] + x
  {
    if i < |v| - 1 {
      SumUpdate(v[..|v| - 1], i, x);
      assert v[i := x][..|v| - 1] == v[..|v| - 1][i := x];
    } else {
      assert v[i := x][..|v| - 1] == v[..|v| - 1];
    }
  }

  lemma {:induction false} SumZeros(n: nat)
    ensures Sum(Zeros(n)) == 0
  {
    if n > 0 {
      SumZeros(n - 1);
      assert Zeros(n)[..n - 1] == Zeros(n - 1);
    }
  }

  lemma {:induction false} CountsSum(bs: seq<Dim>)
    ensures Sum(Counts(bs)) == |bs|
  {
    if bs == [] {
      SumZeros(DIMENSIONS);
    } else {
      var init := bs[..|bs| - 1];
      CountsSum(init);
      SumUpdate(Counts(init), bs[|bs| - 1], Counts(init)[bs[|bs| - 1]] + 1);
    }
  }

  /** The entries of the count vector add up to the number of tokens. */
  lemma CountVectorSum(ts: seq<string>)
    ensures Sum(CountVector(ts)) == |ts|
  {
    CountsSum(Buckets(ts));
  }

  lemma {:induction false} CountsNonNegative(bs: seq<Dim>)
    ensures forall i :: 0 <= i < DIMENSIONS ==> Counts(bs)[i] >= 0
  {
    if bs != [] {
      CountsNonNegative(bs[..|bs| - 1]);
    }
  }

  lemma CountVectorNonNegative(ts: seq<string>)
    ensures forall i :: 0 <= i < DIMENSIONS ==> CountVector(ts)[i] >= 0
  {
    CountsNonNegative(Buckets(ts));
  }

  function SumSquares(v: seq<int>): int {
    if v == [] then 0 else SumSquares(v[..|v| - 1]) + v[|v| - 1] * v[|v| - 1]
  }

  lemma {:induction false} SumSquaresZero(v: seq<int>)
    requires forall i :: 0 <= i < |v| ==> v[i] >= 0
    ensures SumSquares(v) == 0 <==> Sum(v) == 0
    ensures SumSquares(v) >= 0 && Sum(v) >= 0
  {
    if v != [] {
      SumSquaresZero(v[..|v| - 1]);
      var x := v[|v| - 1];
      assert x * x >= 0;
      assert x * x == 0 <==> x == 0;
    }
  }

  /** The sum of squares of the count vector, which `normalize` takes the
      square root of, is zero exactly when there are no tokens. That is the
      one case where the magnitude defaults to 1 and the embedding is the
      all-zero vector; otherwise every count is divided by a positive
      magnitude. */
  lemma ZeroMagnitudeIffNoTokens(text: string)
    ensures SumSquares(CountVector(Tokenize(text))) == 0 <==> Tokenize(text) == []
    ensures Tokenize(text) == [] ==> CountVector(Tokenize(text)) == Zeros(DIMENSIONS)
  {
    var ts := Tokenize(text);
    CountVectorNonNegative(ts);
    SumSquaresZero(CountVector(ts));
    CountVectorSum(ts);
  }
}
