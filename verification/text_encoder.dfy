/**
 * The Binary Spatter Code text encoder (`HDCTextEncoder`): whitespace
 * tokenisation after lowercasing, a memoised token-to-vector table,
 * positional vectors obtained by rolling one base vector, n-gram windows of
 * stride 1 padded with `<PAD>`, n-gram vectors as an XOR fold of
 * `token XOR position`, a strict majority vote across n-grams, and Hamming
 * similarity.
 *
 * The pseudorandom parts are parameters: `random(token)` stands for the
 * md5-seeded `torchhd.random` draw for a token, and `base` for the unseeded
 * draw the position vectors are rolled from.
 */
module TextEncoder {
  import opened Wrappers
  import opened HyperVectors

  // ---------------------------------------------------------------------------
  // Tokenisation: `text.lower().split()`
  // ---------------------------------------------------------------------------

  /** The characters Python's `str.split()` (no separator) treats as whitespace. */
  predicate IsSpace(c: char)
  {
    c == ' ' || '\t' <= c <= '\r' || '\U{1C}' <= c <= '\U{1F}' || c == '\U{85}' || c == '\U{A0}'
    || c == '\U{1680}' || '\U{2000}' <= c <= '\U{200A}' || c == '\U{2028}' || c == '\U{2029}'
    || c == '\U{202F}' || c == '\U{205F}' || c == '\U{3000}'
  }

  predicate IsUpper(c: char)
  {
    'A' <= c <= 'Z'
  }

  /** A well-formed token: non-empty and free of whitespace. */
  predicate IsToken(w: string)
  {
    w != [] && forall i :: 0 <= i < |w| ==> !IsSpace(w[i])
  }

  /** `str.lower()` on one character, for the ASCII letters. */
  function LowerChar(c: char): (r: char)
    ensures !IsUpper(r)
    ensures IsSpace(r) <==> IsSpace(c)
  {
    if IsUpper(c) then (c as int + 32) as char else c
  }

  function Lower(s: string): (r: string)
    ensures |r| == |s|
    ensures forall i :: 0 <= i < |s| ==> r[i] == LowerChar(s[i])
  {
    seq(|s|, i requires 0 <= i < |s| => LowerChar(s[i]))
  }

  /** The longest whitespace-free prefix of `s`. */
  function Word(s: string): (w: string)
    ensures w <= s
    ensures forall i :: 0 <= i < |w| ==> !IsSpace(w[i])
    ensures |w| < |s| ==> IsSpace(s[|w|])
  {
    if s == [] || IsSpace(s[0]) then [] else [s[0]] + Word(s[1..])
  }

  /** `str.split()` with no separator: the maximal runs of non-whitespace, in order. */
  function Split(s: string): (tokens: seq<string>)
    ensures forall i :: 0 <= i < |tokens| ==> IsToken(tokens[i])
    decreases |s|
  {
    if s == [] then []
    else if IsSpace(s[0]) then Split(s[1..])
    else
      var w := Word(s);
      assert w[0] == s[0];
      [w] + Split(s[|w|..])
  }

  /**
   * `_tokenize`: lowercase, then split on whitespace runs. The tokens are
   * well formed and hold no capital letter, so the padding token `<PAD>`
   * never coincides with a token of the text.
   */
  function Tokenize(text: string): (tokens: seq<string>)
    ensures forall i :: 0 <= i < |tokens| ==> IsToken(tokens[i])
    ensures forall i, j :: 0 <= i < |tokens| && 0 <= j < |tokens[i]| ==> !IsUpper(tokens[i][j])
    ensures PAD !in tokens
  {
    SplitOfLowerHasNoCapital(text);
    Split(Lower(text))
  }

  /** The non-whitespace characters of `s`, in order. */
  function NonSpace(s: string): string
  {
    if s == [] then [] else (if IsSpace(s[0]) then [] else [s[0]]) + NonSpace(s[1..])
  }

  function Concat(tokens: seq<string>): string
  {
    if tokens == [] then [] else tokens[0] + Concat(tokens[1..])
  }

  /** Tokens joined with one space between neighbours. */
  function JoinWithSpaces(tokens: seq<string>): string
  {
    if tokens == [] then [] else if |tokens| == 1 then tokens[0] else tokens[0] + " " + JoinWithSpaces(tokens[1..])
  }

  lemma {:induction false} NonSpaceOfWord(s: string)
    ensures NonSpace(s) == Word(s) + NonSpace(s[|Word(s)|..])
  {
    if s != [] && !IsSpace(s[0]) {
      var t := s[1..];
      NonSpaceOfWord(t);
      var rest := NonSpace(t[|Word(t)|..]);
      assert Word(s) == [s[0]] + Word(t);
      assert t[|Word(t)|..] == s[|Word(s)|..];
      assert NonSpace(s) == [s[0]] + (Word(t) + rest);
      assert [s[0]] + (Word(t) + rest) == ([s[0]] + Word(t)) + rest;
    }
  }

  /**
   * Splitting loses nothing but whitespace: the tokens, concatenated, are
   * exactly the non-whitespace characters of the text.
   */
  lemma {:induction false} SplitKeepsCharacters(s: string)
    ensures Concat(Split(s)) == NonSpace(s)
    decreases |s|
  {
    if s == [] {
    } else if IsSpace(s[0]) {
      SplitKeepsCharacters(s[1..]);
    } else {
      var w := Word(s);
      assert w[0] == s[0];
      SplitKeepsCharacters(s[|w|..]);
      NonSpaceOfWord(s);
      assert Split(s)[1..] == Split(s[|w|..]);
    }
  }

  lemma {:induction false} WordOfTokenThenSpace(w: string, rest: string)
    requires forall i :: 0 <= i < |w| ==> !IsSpace(w[i])
    requires rest == [] || IsSpace(rest[0])
    ensures Word(w + rest) == w
  {
    if w == [] {
      assert w + rest == rest;
    } else {
      assert (w + rest)[1..] == w[1..] + rest;
      WordOfTokenThenSpace(w[1..], rest);
    }
  }

  /** Splitting undoes joining well-formed tokens with single spaces. */
  lemma {:induction false} SplitJoin(tokens: seq<string>)
    requires forall i :: 0 <= i < |tokens| ==> IsToken(tokens[i])
    ensures Split(JoinWithSpaces(tokens)) == tokens
  {
    if tokens == [] {
    } else if |tokens| == 1 {
      var w := tokens[0];
      WordOfTokenThenSpace(w, []);
      assert w + [] == w;
      assert w[|w|..] == [];
    } else {
      var w := tokens[0];
      var rest := JoinWithSpaces(tokens[1..]);
      var s := w + " " + rest;
      assert s == w + (" " + rest);
      WordOfTokenThenSpace(w, " " + rest);
      assert s[0] == w[0];
      assert s[|w|..] == " " + rest;
      assert (" " + rest)[1..] == rest;
      SplitJoin(tokens[1..]);
    }
  }

  /** Every character of every token is a character of the split text. */
  lemma {:induction false} SplitTokensComeFromText(s: string)
    ensures forall i, j :: 0 <= i < |Split(s)| && 0 <= j < |Split(s)[i]| ==> Split(s)[i][j] in s
    decreases |s|
  {
    if s == [] {
    } else if IsSpace(s[0]) {
      SplitTokensComeFromText(s[1..]);
    } else {
      var w := Word(s);
      assert w[0] == s[0];
      SplitTokensComeFromText(s[|w|..]);
      forall i, j | 0 <= i < |Split(s)| && 0 <= j < |Split(s)[i]|
        ensures Split(s)[i][j] in s
      {
        if i == 0 {
          assert Split(s)[0] == w && w[j] == s[j];
        } else {
          assert Split(s)[i] == Split(s[|w|..])[i - 1];
          var c := Split(s)[i][j];
          assert c in s[|w|..];
          var k :| 0 <= k < |s[|w|..]| && s[|w|..][k] == c;
          assert s[|w| + k] == c;
        }
      }
    }
  }

  /** Where each token of `Split(s)` starts, counting `s` as starting at `offset`. */
  function StartsFrom(s: string, offset: nat): seq<nat>
    decreases |s|
  {
    if s == [] then []
    else if IsSpace(s[0]) then StartsFrom(s[1..], offset + 1)
    else
      var w := Word(s);
      assert w[0] == s[0];
      [offset] + StartsFrom(s[|w|..], offset + |w|)
  }

  /** `w` occurs in `s` at `p` as a maximal run: whitespace or an end of `s` on both sides. */
  predicate RunAt(s: string, p: nat, w: string)
  {
    p + |w| <= |s| && s[p..p + |w|] == w
    && (p == 0 || IsSpace(s[p - 1]))
    && (p + |w| == |s| || IsSpace(s[p + |w|]))
  }

  /**
   * `tokens` are maximal whitespace-free runs of `s` starting at `starts`,
   * in the text's order with whitespace between neighbours.
   */
  predicate SplitsAt(s: string, tokens: seq<string>, starts: seq<nat>)
  {
    |starts| == |tokens|
    && (forall i :: 0 <= i < |tokens| ==> RunAt(s, starts[i], tokens[i]))
    && (forall i :: 0 <= i < |tokens| - 1 ==> starts[i] + |tokens[i]| < starts[i + 1])
  }

  /**
   * `split()` cuts exactly at whitespace: every token is a maximal
   * whitespace-free run of the text, and the runs follow each other in the
   * text's order with whitespace between them.
   */
  lemma SplitTokensAreMaximalRuns(s: string)
    ensures SplitsAt(s, Split(s), StartsFrom(s, 0))
  {
    SuffixSplitsAt(s, 0);
    assert s[0..] == s;
    assert SuffixRuns(s, 0);
  }

  /**
   * The tokens of the suffix `text[k..]` are maximal runs of the whole
   * `text`, all starting at `k` or later (later than `k` when `text[k]` is
   * whitespace).
   */
  predicate SuffixRuns(text: string, k: nat)
    requires k <= |text|
  {
    var starts := StartsFrom(text[k..], k);
    SplitsAt(text, Split(text[k..]), starts)
    && (forall i :: 0 <= i < |starts| ==> starts[i] >= k)
    && (k < |text| && IsSpace(text[k]) ==> forall i :: 0 <= i < |starts| ==> starts[i] > k)
  }

  /** Every suffix that starts at a token boundary splits into maximal runs of the text. */
  lemma {:induction false} SuffixSplitsAt(text: string, k: nat)
    requires k <= |text|
    requires k == 0 || k == |text| || IsSpace(text[k - 1]) || IsSpace(text[k])
    ensures SuffixRuns(text, k)
    decreases |text| - k, 1
  {
    if k == |text| {
      assert text[k..] == [];
    } else if IsSpace(text[k]) {
      SuffixSplitsAtSpace(text, k);
    } else {
      SuffixSplitsAtWord(text, k);
    }
  }

  /** A suffix starting with whitespace has the runs of the suffix one further on. */
  lemma {:induction false} SuffixSplitsAtSpace(text: string, k: nat)
    requires k < |text| && IsSpace(text[k])
    ensures SuffixRuns(text, k)
    decreases |text| - k, 0
  {
    SuffixSplitsAt(text, k + 1);
    SpaceStep(text, k);
  }

  /** A suffix starting with a word has that word as a run, then the runs after it. */
  lemma {:induction false} SuffixSplitsAtWord(text: string, k: nat)
    requires k < |text| && !IsSpace(text[k]) && (k == 0 || IsSpace(text[k - 1]))
    ensures SuffixRuns(text, k)
    decreases |text| - k, 0
  {
    var w := Word(text[k..]);
    assert w[0] == text[k];
    WordRunAt(text, k, w);
    SuffixSplitsAt(text, k + |w|);
    WordStep(text, k, w);
  }

  lemma SpaceStep(text: string, k: nat)
    requires k < |text| && IsSpace(text[k]) && SuffixRuns(text, k + 1)
    ensures SuffixRuns(text, k)
  {
    var s := text[k..];
    assert s[1..] == text[k + 1..];
    assert Split(s) == Split(text[k + 1..]);
    assert StartsFrom(s, k) == StartsFrom(text[k + 1..], k + 1);
  }

  lemma WordStep(text: string, k: nat, w: string)
    requires k < |text| && !IsSpace(text[k]) && (k == 0 || IsSpace(text[k - 1]))
    requires w == Word(text[k..]) && k + |w| <= |text| && SuffixRuns(text, k + |w|)
    ensures SuffixRuns(text, k)
  {
    var s := text[k..];
    assert w[0] == s[0];
    var rest := s[|w|..];
    assert rest == text[k + |w|..];
    WordRunAt(text, k, w);
    ConsSplitsAt(text, k, w, Split(rest), StartsFrom(rest, k + |w|));
    assert Split(s) == [w] + Split(rest);
    assert StartsFrom(s, k) == [k] + StartsFrom(rest, k + |w|);
  }

  /** A maximal run placed before runs that all start beyond its end. */
  lemma ConsSplitsAt(text: string, k: nat, w: string, ts: seq<string>, ps: seq<nat>)
    requires RunAt(text, k, w) && SplitsAt(text, ts, ps)
    requires forall i :: 0 <= i < |ps| ==> ps[i] > k + |w|
    ensures SplitsAt(text, [w] + ts, [k] + ps)
    ensures forall i :: 0 <= i < |[k] + ps| ==> ([k] + ps)[i] >= k
  {
    var tokens, starts := [w] + ts, [k] + ps;
    forall i | 0 <= i < |tokens|
      ensures RunAt(text, starts[i], tokens[i])
    {
      if i > 0 {
        assert starts[i] == ps[i - 1] && tokens[i] == ts[i - 1];
      }
    }
    forall i | 0 <= i < |tokens| - 1
      ensures starts[i] + |tokens[i]| < starts[i + 1]
    {
      assert starts[i + 1] == ps[i];
      if i > 0 {
        assert starts[i] == ps[i - 1] && tokens[i] == ts[i - 1];
      }
    }
  }

  /** The leading word of `text[k..]` is a maximal run of `text` at `k`. */
  lemma WordRunAt(text: string, k: nat, w: string)
    requires k < |text| && !IsSpace(text[k]) && (k == 0 || IsSpace(text[k - 1]))
    requires w == Word(text[k..])
    ensures RunAt(text, k, w)
    ensures k + |w| < |text| ==> IsSpace(text[k + |w|])
  {
    assert text[k..][..|w|] == text[k..k + |w|];
    if k + |w| < |text| {
      assert text[k..][|w|] == text[k + |w|];
    }
  }

  lemma SplitOfLowerHasNoCapital(text: string)
    ensures var tokens := Split(Lower(text));
            forall i, j :: 0 <= i < |tokens| && 0 <= j < |tokens[i]| ==> !IsUpper(tokens[i][j])
    ensures PAD !in Split(Lower(text))
  {
    var lowered := Lower(text);
    var tokens := Split(lowered);
    SplitTokensComeFromText(lowered);
    forall i, j | 0 <= i < |tokens| && 0 <= j < |tokens[i]|
      ensures !IsUpper(tokens[i][j])
    {
      var k :| 0 <= k < |lowered| && lowered[k] == tokens[i][j];
    }
    assert IsUpper(PAD[1]);
  }

  // ---------------------------------------------------------------------------
  // N-gram windows
  // ---------------------------------------------------------------------------

  const PAD: string := "<PAD>"

  function Min(a: int, b: int): int
  {
    if a <= b then a else b
  }

  /**
   * The `i`-th window: `tokens[i:i+n]`, padded at the end with `<PAD>` up to
   * width `n`.
   */
  function Ngram(tokens: seq<string>, i: nat, n: nat): (gram: seq<string>)
    requires i < |tokens|
    ensures |gram| == n
    ensures forall j :: 0 <= j < n ==> gram[j] == if i + j < |tokens| then tokens[i + j] else PAD
  {
    var window := tokens[i..Min(i + n, |tokens|)];
    if |window| < n then window + seq(n - |window|, _ => PAD) else window
  }

  /** All windows of `tokens`: one per token, stride 1. */
  function Ngrams(tokens: seq<string>, n: nat): (grams: seq<seq<string>>)
    ensures |grams| == |tokens|
  {
    seq(|tokens|, i requires 0 <= i < |tokens| => Ngram(tokens, i, n))
  }

  /** The strings that occur in some window of `tokens`. */
  function NgramTokens(tokens: seq<string>, n: nat): set<string>
  {
    set i, t | 0 <= i < |tokens| && t in Ngram(tokens, i, n) :: t
  }

  /**
   * The windows of a non-empty text with width at least one hold exactly the
   * text's tokens, together with `<PAD>` when the width is at least two.
   */
  lemma NgramTokensAreTokensAndPad(tokens: seq<string>, n: nat)
    requires |tokens| > 0 && n >= 1
    ensures NgramTokens(tokens, n) == (set t | t in tokens) + (if n >= 2 then {PAD} else {})
  {
    var lhs := NgramTokens(tokens, n);
    var rhs := (set t | t in tokens) + (if n >= 2 then {PAD} else {});
    forall t | t in rhs ensures t in lhs {
      if t in tokens {
        var i :| 0 <= i < |tokens| && tokens[i] == t;
        assert Ngram(tokens, i, n)[0] == t;
        assert t in Ngram(tokens, i, n);
      } else {
        var last := |tokens| - 1;
        assert Ngram(tokens, last, n)[1] == PAD;
        assert t in Ngram(tokens, last, n);
      }
    }
    forall t | t in lhs ensures t in rhs {
      var i :| 0 <= i < |tokens| && t in Ngram(tokens, i, n);
      var j :| 0 <= j < n && Ngram(tokens, i, n)[j] == t;
      if i + j < |tokens| {
        assert t == tokens[i + j];
      } else {
        assert j >= 1;
      }
    }
  }

  // ---------------------------------------------------------------------------
  // Position vectors and n-gram vectors
  // ---------------------------------------------------------------------------

  /** `_generate_position_vectors`: position `i` is the base vector rolled by `i`. */
  function PositionVectors(base: BitVec, n: nat): (ps: seq<BitVec>)
    ensures |ps| == n
  {
    seq(n, i requires 0 <= i < n => Roll(base, i))
  }

  /** Every token vector the generator hands out has length `dimensions`. */
  ghost predicate Generates(random: string -> BitVec, dimensions: nat)
  {
    forall t :: |random(t)| == dimensions
  }

  predicate AllOfLength(vs: seq<BitVec>, dimensions: nat)
  {
    forall i :: 0 <= i < |vs| ==> |vs[i]| == dimensions
  }

  /**
   * `_encode_ngram`: starting from the all-false vector, XOR in
   * `token_vec(gram[i]) XOR position[i]` for each slot `i` in turn. So bit
   * `k` of the result is the parity of the number of slots whose token
   * vector and position vector disagree at `k`.
   */
  function NgramVector(random: string -> BitVec, positions: seq<BitVec>, gram: seq<string>, dimensions: nat): (v: BitVec)
    requires Generates(random, dimensions) && AllOfLength(positions, dimensions)
    requires |gram| <= |positions|
    ensures |v| == dimensions
    ensures forall k :: 0 <= k < dimensions ==>
              (v[k] <==> |FlippingSlots(random, positions, gram, dimensions, k)| % 2 == 1)
    decreases |gram|
  {
    if gram == [] then
      NoFlippingSlots(random, positions, gram, dimensions);
      Zeros(dimensions)
    else
      var last := |gram| - 1;
      FlippingSlotsGrow(random, positions, gram, dimensions);
      Xor(NgramVector(random, positions, gram[..last], dimensions), Xor(random(gram[last]), positions[last]))
  }

  /** The slots of `gram` whose bound vector has bit `k` set. */
  function FlippingSlots(random: string -> BitVec, positions: seq<BitVec>, gram: seq<string>, dimensions: nat, k: nat): set<nat>
    requires Generates(random, dimensions) && AllOfLength(positions, dimensions)
    requires |gram| <= |positions| && k < dimensions
  {
    set i: nat | i < |gram| && random(gram[i])[k] != positions[i][k]
  }

  lemma NoFlippingSlots(random: string -> BitVec, positions: seq<BitVec>, gram: seq<string>, dimensions: nat)
    requires Generates(random, dimensions) && AllOfLength(positions, dimensions)
    requires gram == []
    ensures forall k :: 0 <= k < dimensions ==> FlippingSlots(random, positions, gram, dimensions, k) == {}
  {
  }

  lemma FlippingSlotsGrow(random: string -> BitVec, positions: seq<BitVec>, gram: seq<string>, dimensions: nat)
    requires Generates(random, dimensions) && AllOfLength(positions, dimensions)
    requires 0 < |gram| <= |positions|
    ensures forall k :: 0 <= k < dimensions ==>
              |FlippingSlots(random, positions, gram, dimensions, k)|
              == |FlippingSlots(random, positions, gram[..|gram| - 1], dimensions, k)|
                 + (if random(gram[|gram| - 1])[k] != positions[|gram| - 1][k] then 1 else 0)
  {
    forall k | 0 <= k < dimensions
      ensures |FlippingSlots(random, positions, gram, dimensions, k)|
              == |FlippingSlots(random, positions, gram[..|gram| - 1], dimensions, k)|
                 + (if random(gram[|gram| - 1])[k] != positions[|gram| - 1][k] then 1 else 0)
    {
      FlippingSlotsStep(random, positions, gram, dimensions, k);
    }
  }

  lemma FlippingSlotsStep(random: string -> BitVec, positions: seq<BitVec>, gram: seq<string>, dimensions: nat, k: nat)
    requires Generates(random, dimensions) && AllOfLength(positions, dimensions)
    requires 0 < |gram| <= |positions| && k < dimensions
    ensures var last := |gram| - 1;
            var flips := random(gram[last])[k] != positions[last][k];
            |FlippingSlots(random, positions, gram, dimensions, k)|
            == |FlippingSlots(random, positions, gram[..last], dimensions, k)| + (if flips then 1 else 0)
  {
    var last := |gram| - 1;
    var prefix := gram[..last];
    var before := FlippingSlots(random, positions, prefix, dimensions, k);
    var after := FlippingSlots(random, positions, gram, dimensions, k);
    var flips := random(gram[last])[k] != positions[last][k];
    forall i: nat | i < last ensures (i in after <==> i in before) {
      assert prefix[i] == gram[i];
    }
    assert after == before + (if flips then {last} else {});
    assert last !in before;
  }

  // ---------------------------------------------------------------------------
  // Majority vote
  // ---------------------------------------------------------------------------

  /** Indices of the vectors with bit `k` set (`vote_count[k]` is its size). */
  function Ones(vs: seq<BitVec>, k: nat): set<nat>
    requires forall i :: 0 <= i < |vs| ==> k < |vs[i]|
  {
    set i: nat | i < |vs| && vs[i][k]
  }

  /** Indices of the vectors with bit `k` clear. */
  function Zeroes(vs: seq<BitVec>, k: nat): set<nat>
    requires forall i :: 0 <= i < |vs| ==> k < |vs[i]|
  {
    set i: nat | i < |vs| && !vs[i][k]
  }

  /**
   * `(vote_count > len(ngram_vectors) / 2)`: bit `k` is set when strictly
   * more than half of the vectors have it set (`c > n / 2` over the reals is
   * `2 * c > n`), that is, when the vectors with the bit set outnumber those
   * with it clear; a tie gives a clear bit.
   */
  function Vote(vs: seq<BitVec>, dimensions: nat): (r: BitVec)
    requires AllOfLength(vs, dimensions)
    ensures |r| == dimensions
    ensures forall k :: 0 <= k < dimensions ==> (r[k] <==> |Ones(vs, k)| > |Zeroes(vs, k)|)
  {
    PartitionEverywhere(vs, dimensions);
    seq(dimensions, k requires 0 <= k < dimensions => 2 * |Ones(vs, k)| > |vs|)
  }

  lemma PartitionEverywhere(vs: seq<BitVec>, dimensions: nat)
    requires AllOfLength(vs, dimensions)
    ensures forall k :: 0 <= k < dimensions ==> |Ones(vs, k)| + |Zeroes(vs, k)| == |vs|
  {
    forall k | 0 <= k < dimensions ensures |Ones(vs, k)| + |Zeroes(vs, k)| == |vs| {
      OnesAndZeroesPartition(vs, k);
    }
  }

  /** Every vector is counted once, either among the ones or among the zeroes. */
  lemma {:induction false} OnesAndZeroesPartition(vs: seq<BitVec>, k: nat)
    requires forall i :: 0 <= i < |vs| ==> k < |vs[i]|
    ensures |Ones(vs, k)| + |Zeroes(vs, k)| == |vs|
    decreases |vs|
  {
    if vs != [] {
      var last := |vs| - 1;
      var prefix := vs[..last];
      OnesAndZeroesPartition(prefix, k);
      forall i: nat | i < last ensures (i in Ones(vs, k) <==> i in Ones(prefix, k)) && (i in Zeroes(vs, k) <==> i in Zeroes(prefix, k)) {
        assert prefix[i] == vs[i];
      }
      if vs[last][k] {
        assert Ones(vs, k) == Ones(prefix, k) + {last};
        assert Zeroes(vs, k) == Zeroes(prefix, k);
      } else {
        assert Ones(vs, k) == Ones(prefix, k);
        assert Zeroes(vs, k) == Zeroes(prefix, k) + {last};
      }
    }
  }

  /** Voting among copies of one vector gives that vector back. */
  lemma VoteOfCopies(vs: seq<BitVec>, v: BitVec)
    requires |vs| >= 1 && forall i :: 0 <= i < |vs| ==> vs[i] == v
    ensures Vote(vs, |v|) == v
  {
    forall k | 0 <= k < |v| ensures Vote(vs, |v|)[k] == v[k] {
      if v[k] {
        assert Zeroes(vs, k) == {};
        OnesAndZeroesPartition(vs, k);
      } else {
        assert Ones(vs, k) == {};
      }
    }
  }

  // ---------------------------------------------------------------------------
  // Whole-text encoding
  // ---------------------------------------------------------------------------

  /** The n-gram vector of every window of `tokens`, in order. */
  function NgramVectors(random: string -> BitVec, base: BitVec, tokens: seq<string>, n: nat): (vs: seq<BitVec>)
    requires Generates(random, |base|)
    ensures |vs| == |tokens| && AllOfLength(vs, |base|)
  {
    seq(|tokens|, i requires 0 <= i < |tokens| => NgramVector(random, PositionVectors(base, n), Ngram(tokens, i, n), |base|))
  }

  /**
   * `encode`: the all-false vector for a text without tokens, the only
   * n-gram vector for a one-token text, otherwise the majority vote of the
   * n-gram vectors.
   */
  function EncodeText(random: string -> BitVec, base: BitVec, n: nat, text: string): BitVec
    requires Generates(random, |base|)
  {
    var tokens := Tokenize(text);
    if |tokens| == 0 then Zeros(|base|)
    else
      var vs := NgramVectors(random, base, tokens, n);
      if |vs| == 1 then vs[0] else Vote(vs, |base|)
  }

  /**
   * Every encoding has length `dimensions`; a text without tokens encodes
   * to the all-false vector; otherwise bit `k` is set iff strictly more than
   * half of the n-gram vectors have it set. The one-n-gram shortcut agrees
   * with that vote.
   */
  lemma EncodeIsMajorityOfNgrams(random: string -> BitVec, base: BitVec, n: nat, text: string)
    requires Generates(random, |base|)
    ensures |EncodeText(random, base, n, text)| == |base|
    ensures Tokenize(text) == [] ==> EncodeText(random, base, n, text) == Zeros(|base|)
    ensures Tokenize(text) != [] ==>
              forall k :: 0 <= k < |base| ==>
                (EncodeText(random, base, n, text)[k]
                 <==> 2 * |Ones(NgramVectors(random, base, Tokenize(text), n), k)| > |Tokenize(text)|)
  {
    var tokens := Tokenize(text);
    if tokens != [] {
      var vs := NgramVectors(random, base, tokens, n);
      var e := EncodeText(random, base, n, text);
      assert e == if |vs| == 1 then vs[0] else Vote(vs, |base|);
      forall k | 0 <= k < |base|
        ensures e[k] <==> 2 * |Ones(vs, k)| > |tokens|
      {
        if |vs| == 1 {
          SingleVote(vs, k);
        }
      }
    }
  }

  /** With one window the majority is that window's own bit. */
  lemma SingleVote(vs: seq<BitVec>, k: nat)
    requires |vs| == 1 && k < |vs[0]|
    ensures vs[0][k] <==> 2 * |Ones(vs, k)| > 1
  {
    assert Ones(vs, k) == if vs[0][k] then {0} else {};
  }

  // ---------------------------------------------------------------------------
  // Hamming similarity (`cosine_similarity`)
  // ---------------------------------------------------------------------------

  /** Number of positions where the two vectors differ. */
  function Hamming(a: BitVec, b: BitVec): nat
    requires |a| == |b|
  {
    PopCount(Xor(a, b))
  }

  /**
   * `cosine_similarity`: `1 - hamming / dimensions`; `None` where Python
   * raises `ZeroDivisionError` (`dimensions == 0`).
   */
  function CosineSimilarity(a: BitVec, b: BitVec, dimensions: nat): (r: Option<real>)
    requires |a| == |b|
    ensures r.None? <==> dimensions == 0
    ensures r.Some? ==> r.value <= 1.0
    ensures r.Some? && a == b ==> r.value == 1.0
  {
    if dimensions == 0 then None
    else
      PopCountZeroIff(Xor(a, b));
      Some(1.0 - Hamming(a, b) as real / dimensions as real)
  }

  /** Similarity does not depend on the order of its arguments. */
  lemma SimilaritySymmetric(a: BitVec, b: BitVec, dimensions: nat)
    requires |a| == |b|
    ensures CosineSimilarity(a, b, dimensions) == CosineSimilarity(b, a, dimensions)
  {
    assert Xor(a, b) == Xor(b, a);
  }

  /**
   * For vectors of length `dimensions > 0` the similarity lies in [0, 1] and
   * is 1 exactly when the vectors are equal.
   */
  lemma SimilarityBoundsAndIdentity(a: BitVec, b: BitVec, dimensions: nat)
    requires |a| == |b| == dimensions > 0
    ensures CosineSimilarity(a, b, dimensions).Some?
    ensures 0.0 <= CosineSimilarity(a, b, dimensions).value <= 1.0
    ensures CosineSimilarity(a, b, dimensions).value == 1.0 <==> a == b
  {
    var x := Xor(a, b);
    PopCountZeroIff(x);
    RatioBounds(PopCount(x) as real, dimensions as real);
    if a != b {
      var k :| 0 <= k < |a| && a[k] != b[k];
      assert x[k];
    }
  }

  lemma RatioBounds(h: real, d: real)
    requires 0.0 <= h <= d && d > 0.0
    ensures 0.0 <= 1.0 - h / d <= 1.0
    ensures 1.0 - h / d == 1.0 <==> h == 0.0
  {
    assert h / d * d == h;
  }

  /** Any text is fully similar to itself. */
  lemma EncodingSelfSimilarity(random: string -> BitVec, base: BitVec, n: nat, text: string)
    requires Generates(random, |base|) && |base| > 0
    ensures var v := EncodeText(random, base, n, text);
            |v| == |base| && CosineSimilarity(v, v, |base|) == Some(1.0)
  {
    var v := EncodeText(random, base, n, text);
    EncodeIsMajorityOfNgrams(random, base, n, text);
    SimilarityBoundsAndIdentity(v, v, |base|);
  }

  // ---------------------------------------------------------------------------
  // Distinct tokens, distinct encodings; and the all-true generator
  // ---------------------------------------------------------------------------

  /**
   * Two windows that agree except in their first slot, where the token
   * vectors differ at bit `k`, have n-gram vectors that differ at bit `k`.
   */
  lemma FirstSlotDecides(random: string -> BitVec, positions: seq<BitVec>, g1: seq<string>, g2: seq<string>, dimensions: nat, k: nat)
    requires Generates(random, dimensions) && AllOfLength(positions, dimensions)
    requires 1 <= |g1| == |g2| <= |positions| && forall i :: 1 <= i < |g1| ==> g1[i] == g2[i]
    requires k < dimensions && random(g1[0])[k] != random(g2[0])[k]
    ensures NgramVector(random, positions, g1, dimensions)[k] != NgramVector(random, positions, g2, dimensions)[k]
  {
    var s1 := FlippingSlots(random, positions, g1, dimensions, k);
    var s2 := FlippingSlots(random, positions, g2, dimensions, k);
    assert 0 in s1 <==> 0 !in s2;
    assert forall i :: i in s1 && i != 0 ==> i in s2;
    assert forall i :: i in s2 && i != 0 ==> i in s1;
    if 0 in s1 {
      ToggleChangesParity(s1, s2, 0);
    } else {
      ToggleChangesParity(s2, s1, 0);
    }
  }

  lemma ToggleChangesParity(big: set<nat>, small: set<nat>, e: nat)
    requires e in big && e !in small
    requires forall i :: i in big && i != e ==> i in small
    requires forall i :: i in small ==> i in big
    ensures |big| % 2 != |small| % 2
  {
    assert big == small + {e};
  }

  /**
   * With token vectors drawn as random bits, two one-token texts whose
   * tokens get different vectors encode to different vectors, for every
   * n-gram width of at least one.
   */
  lemma DistinctTokensEncodeApart(random: string -> BitVec, base: BitVec, n: nat, a: string, b: string)
    requires Generates(random, |base|) && n >= 1
    requires |Tokenize(a)| == 1 && |Tokenize(b)| == 1
    requires random(Tokenize(a)[0]) != random(Tokenize(b)[0])
    ensures EncodeText(random, base, n, a) != EncodeText(random, base, n, b)
  {
    var x, y := Tokenize(a)[0], Tokenize(b)[0];
    var positions := PositionVectors(base, n);
    var g1, g2 := Ngram(Tokenize(a), 0, n), Ngram(Tokenize(b), 0, n);
    var k :| 0 <= k < |base| && random(x)[k] != random(y)[k];
    FirstSlotDecides(random, positions, g1, g2, |base|, k);
  }

  /** `torchhd.random` with its default MAP model, read by `logical_xor` as booleans: every element non-zero. */
  function AllTrue(dimensions: nat): (r: BitVec)
    ensures |r| == dimensions
  {
    seq(dimensions, _ => true)
  }

  /** Where every slot's token vector equals its position vector, the XOR fold cancels to all-false. */
  lemma {:induction false} CancellingNgramIsZero(random: string -> BitVec, positions: seq<BitVec>, gram: seq<string>, dimensions: nat)
    requires Generates(random, dimensions) && AllOfLength(positions, dimensions)
    requires |gram| <= |positions|
    requires forall i :: 0 <= i < |gram| ==> random(gram[i]) == positions[i]
    ensures NgramVector(random, positions, gram, dimensions) == Zeros(dimensions)
    decreases |gram|
  {
    if gram != [] {
      var last := |gram| - 1;
      CancellingNgramIsZero(random, positions, gram[..last], dimensions);
    }
  }

  /**
   * If the generator and the base vector are all-true (MAP vectors read as
   * booleans), every text encodes to the all-false vector, whatever its tokens.
   */
  lemma MapGeneratorEncodesEveryTextToZero(random: string -> BitVec, base: BitVec, n: nat, text: string)
    requires base == AllTrue(|base|) && forall t :: random(t) == AllTrue(|base|)
    ensures Generates(random, |base|)
    ensures EncodeText(random, base, n, text) == Zeros(|base|)
  {
    var positions := PositionVectors(base, n);
    forall i | 0 <= i < n ensures positions[i] == AllTrue(|base|) {
    }
    var tokens := Tokenize(text);
    if |tokens| > 0 {
      var vs := NgramVectors(random, base, tokens, n);
      forall i | 0 <= i < |tokens| ensures vs[i] == Zeros(|base|) {
        CancellingNgramIsZero(random, positions, Ngram(tokens, i, n), |base|);
      }
      if |vs| > 1 {
        forall k | 0 <= k < |base| ensures !Vote(vs, |base|)[k] {
          assert Ones(vs, k) == {};
        }
      }
    }
  }

  // ---------------------------------------------------------------------------
  // The encoder object
  // ---------------------------------------------------------------------------

  /**
   * `_generate_position_vectors`: one rolled copy of `base` per n-gram slot.
   * Position 0 is the base itself, and every position keeps the length and
   * the number of set bits of the base.
   */
  method GeneratePositionVectors(base: BitVec, n: nat) returns (positions: seq<BitVec>)
    ensures positions == PositionVectors(base, n)
    ensures n > 0 ==> positions[0] == base
    ensures forall i :: 0 <= i < n ==> |positions[i]| == |base| && PopCount(positions[i]) == PopCount(base)
  {
    positions := [];
    var i := 0;
    while i < n
      invariant 0 <= i <= n && |positions| == i
      invariant forall j :: 0 <= j < i ==> positions[j] == Roll(base, j)
    {
      positions := positions + [Roll(base, i)];
      i := i + 1;
    }
    RollZero(base);
    forall i | 0 <= i < n ensures PopCount(positions[i]) == PopCount(base) {
      RollPreservesPopCount(base, i);
    }
  }

  /** The strings occurring in a sequence. */
  function Elements(s: seq<string>): set<string>
  {
    set t | t in s
  }

  lemma ElementsStep(s: seq<string>, i: nat)
    requires i < |s|
    ensures Elements(s[..i + 1]) == Elements(s[..i]) + {s[i]}
  {
    assert s[..i + 1] == s[..i] + [s[i]];
  }

  /** Binding one more token of the window XORs in its token and position vectors. */
  lemma NgramVectorStep(random: string -> BitVec, positions: seq<BitVec>, gram: seq<string>, i: nat, dimensions: nat)
    requires Generates(random, dimensions) && AllOfLength(positions, dimensions)
    requires i < |gram| <= |positions|
    ensures NgramVector(random, positions, gram[..i + 1], dimensions)
            == Xor(NgramVector(random, positions, gram[..i], dimensions), Xor(random(gram[i]), positions[i]))
  {
    assert gram[..i + 1][..i] == gram[..i];
  }

  /** The strings occurring in a list of windows, accumulated window by window. */
  function WindowTokens(grams: seq<seq<string>>): set<string>
  {
    if grams == [] then {} else WindowTokens(grams[..|grams| - 1]) + Elements(grams[|grams| - 1])
  }
  lemma WindowTokensStep(grams: seq<seq<string>>, j: nat)
    requires j < |grams|
    ensures WindowTokens(grams[..j + 1]) == WindowTokens(grams[..j]) + Elements(grams[j])
  {
    assert grams[..j + 1][..j] == grams[..j];
  }


  lemma {:induction false} WindowTokensOfNgrams(tokens: seq<string>, n: nat, j: nat)
    requires j <= |tokens|
    ensures WindowTokens(Ngrams(tokens, n)[..j]) == set i, t | 0 <= i < j && t in Ngram(tokens, i, n) :: t
  {
    var grams := Ngrams(tokens, n)[..j];
    if j > 0 {
      WindowTokensOfNgrams(tokens, n, j - 1);
      assert grams[..j - 1] == Ngrams(tokens, n)[..j - 1];
      var lhs := WindowTokens(grams);
      var rhs := set i, t | 0 <= i < j && t in Ngram(tokens, i, n) :: t;
      forall t | t in rhs ensures t in lhs {
        var i :| 0 <= i < j && t in Ngram(tokens, i, n);
        if i < j - 1 {
          assert t in WindowTokens(grams[..j - 1]);
        } else {
          assert grams[j - 1] == Ngram(tokens, i, n);
        }
      }
    }
  }

  /** The strings the windows of each text hold, over a batch of texts. */
  function BatchTokens(texts: seq<string>, n: nat): set<string>
  {
    if texts == [] then {} else BatchTokens(texts[..|texts| - 1], n) + NgramTokens(Tokenize(texts[|texts| - 1]), n)
  }
  lemma BatchTokensStep(texts: seq<string>, i: nat, n: nat)
    requires i < |texts|
    ensures BatchTokens(texts[..i + 1], n) == BatchTokens(texts[..i], n) + NgramTokens(Tokenize(texts[i]), n)
  {
    assert texts[..i + 1][..i] == texts[..i];
  }


  /** The first loop of `encode`: each token's window, padded with `PAD` to `n` strings. */
  method MakeNgrams(tokens: seq<string>, n: nat) returns (ngrams: seq<seq<string>>)
    ensures ngrams == Ngrams(tokens, n)
  {
    ngrams := [];
    var i := 0;
    while i < |tokens|
      invariant 0 <= i <= |tokens|
      invariant ngrams == Ngrams(tokens, n)[..i]
    {
      var ngram := tokens[i..Min(i + n, |tokens|)];
      if |ngram| < n {
        ngram := ngram + seq(n - |ngram|, _ => PAD);
      }
      ngrams := ngrams + [ngram];
      i := i + 1;
    }
  }

  /**
   * `HDCTextEncoder`. `tokenVectors` is the memo table that
   * `_get_token_vector` fills in; every cached vector is the generator's
   * vector for its token, so the cache never changes what is computed.
   */
  class Encoder {
    const dimensions: nat
    const ngramSize: nat
    /** The md5-seeded `torchhd.random` draw for each token. */
    const random: string -> BitVec
    /** The unseeded `torchhd.random` draw the positions are rolled from. */
    ghost const base: BitVec
    const positionVectors: seq<BitVec>
    var tokenVectors: map<string, BitVec>

    ghost predicate Valid()
      reads this
    {
      && |base| == dimensions
      && Generates(random, dimensions)
      && positionVectors == PositionVectors(base, ngramSize)
      && AllOfLength(positionVectors, dimensions)
      && forall t :: t in tokenVectors ==> tokenVectors[t] == random(t)
    }

    constructor (dimensions: nat, ngramSize: nat, random: string -> BitVec, base: BitVec)
      requires |base| == dimensions && Generates(random, dimensions)
      ensures Valid()
      ensures this.dimensions == dimensions && this.ngramSize == ngramSize
      ensures this.random == random && this.base == base
      ensures tokenVectors == map[]
    {
      this.dimensions := dimensions;
      this.ngramSize := ngramSize;
      this.random := random;
      this.base := base;
      var positions := GeneratePositionVectors(base, ngramSize);
      positionVectors := positions;
      tokenVectors := map[];
    }

    /**
     * `_get_token_vector`: inserts the generator's vector for `token` only
     * when the token is not cached yet; returns the cached vector; no other
     * entry changes.
     */
    method GetTokenVector(token: string) returns (v: BitVec)
      requires Valid()
      modifies this`tokenVectors
      ensures Valid()
      ensures v == random(token) && |v| == dimensions
      ensures tokenVectors == old(tokenVectors)[token := v]
      ensures token in old(tokenVectors) ==> tokenVectors == old(tokenVectors) && v == old(tokenVectors)[token]
    {
      if token !in tokenVectors {
        tokenVectors := tokenVectors[token := random(token)];
      }
      v := tokenVectors[token];
    }

    /** `_encode_ngram`: the XOR fold over the window, caching each token met. */
    method EncodeNgram(tokens: seq<string>) returns (v: BitVec)
      requires Valid() && |tokens| <= ngramSize
      modifies this`tokenVectors
      ensures Valid()
      ensures v == NgramVector(random, positionVectors, tokens, dimensions)
      ensures tokenVectors.Keys == old(tokenVectors.Keys) + Elements(tokens)
    {
      v := Zeros(dimensions);
      var i := 0;
      while i < |tokens|
        invariant Valid() && 0 <= i <= |tokens|
        invariant v == NgramVector(random, positionVectors, tokens[..i], dimensions)
        invariant tokenVectors.Keys == old(tokenVectors.Keys) + Elements(tokens[..i])
      {
        var tokenVec := GetTokenVector(tokens[i]);
        var positionVec := positionVectors[i];
        var bound := Xor(tokenVec, positionVec);
        v := Xor(v, bound);
        NgramVectorStep(random, positionVectors, tokens, i, dimensions);
        ElementsStep(tokens, i);
        i := i + 1;
      }
      assert tokens[..|tokens|] == tokens;
    }

    /** The second loop of `encode`: one n-gram vector per window, in order. */
    method EncodeNgrams(ngrams: seq<seq<string>>) returns (vectors: seq<BitVec>)
      requires Valid() && forall k :: 0 <= k < |ngrams| ==> |ngrams[k]| <= ngramSize
      modifies this`tokenVectors
      ensures Valid()
      ensures |vectors| == |ngrams|
      ensures forall k :: 0 <= k < |ngrams| ==> vectors[k] == NgramVector(random, positionVectors, ngrams[k], dimensions)
      ensures tokenVectors.Keys == old(tokenVectors.Keys) + WindowTokens(ngrams)
    {
      vectors := [];
      var j := 0;
      while j < |ngrams|
        invariant Valid() && 0 <= j <= |ngrams| && |vectors| == j
        invariant forall k :: 0 <= k < j ==> vectors[k] == NgramVector(random, positionVectors, ngrams[k], dimensions)
        invariant tokenVectors.Keys == old(tokenVectors.Keys) + WindowTokens(ngrams[..j])
      {
        var vector := EncodeNgram(ngrams[j]);
        assert forall k :: 0 <= k < j + 1 ==> (vectors + [vector])[k] == NgramVector(random, positionVectors, ngrams[k], dimensions) by {
          forall k | 0 <= k < j + 1 ensures (vectors + [vector])[k] == NgramVector(random, positionVectors, ngrams[k], dimensions) {
            if k < j {
              assert (vectors + [vector])[k] == vectors[k];
            }
          }
        }
        vectors := vectors + [vector];
        WindowTokensStep(ngrams, j);
        j := j + 1;
      }
      assert ngrams[..|ngrams|] == ngrams;
    }

    /**
     * `encode`: the vector of `EncodeText`; the cache gains exactly the
     * strings of the text's windows.
     */
    method Encode(text: string) returns (v: BitVec)
      requires Valid()
      modifies this`tokenVectors
      ensures Valid()
      ensures v == EncodeText(random, base, ngramSize, text)
      ensures tokenVectors.Keys == old(tokenVectors.Keys) + NgramTokens(Tokenize(text), ngramSize)
    {
      var tokens := Tokenize(text);
      if |tokens| == 0 {
        v := Zeros(dimensions);
        return;
      }
      var ngrams := MakeNgrams(tokens, ngramSize);
      var ngramVectors := EncodeNgrams(ngrams);
      assert ngramVectors == NgramVectors(random, base, tokens, ngramSize);
      WindowTokensOfNgrams(tokens, ngramSize, |tokens|);
      assert ngrams[..|tokens|] == ngrams;
      if |ngramVectors| == 1 {
        v := ngramVectors[0];
      } else {
        v := Vote(ngramVectors, dimensions);
      }
    }

    /**
     * `batch_encode`: one encoding per text, in order. `torch.cat` of an
     * empty list raises, so an empty batch is an error (`None`), after a
     * loop that has touched nothing.
     */
    method BatchEncode(texts: seq<string>) returns (result: Option<seq<BitVec>>)
      requires Valid()
      modifies this`tokenVectors
      ensures Valid()
      ensures result.None? <==> |texts| == 0
      ensures result.Some? ==> |result.value| == |texts|
      ensures result.Some? ==> forall i :: 0 <= i < |texts| ==> result.value[i] == EncodeText(random, base, ngramSize, texts[i])
      ensures tokenVectors.Keys == old(tokenVectors.Keys) + BatchTokens(texts, ngramSize)
    {
      var vectors := EncodeAll(texts);
      result := if |vectors| == 0 then None else Some(vectors);
    }

    /** Encodes each text in turn, in order; the loop behind `BatchEncode`. */
    method EncodeAll(texts: seq<string>) returns (vectors: seq<BitVec>)
      requires Valid()
      modifies this`tokenVectors
      ensures Valid()
      ensures |vectors| == |texts|
      ensures forall i :: 0 <= i < |texts| ==> vectors[i] == EncodeText(random, base, ngramSize, texts[i])
      ensures tokenVectors.Keys == old(tokenVectors.Keys) + BatchTokens(texts, ngramSize)
    {
      vectors := [];
      var i := 0;
      while i < |texts|
        invariant Valid() && 0 <= i <= |texts| && |vectors| == i
        invariant forall j :: 0 <= j < i ==> vectors[j] == EncodeText(random, base, ngramSize, texts[j])
        invariant tokenVectors.Keys == old(tokenVectors.Keys) + BatchTokens(texts[..i], ngramSize)
      {
        var vector := Encode(texts[i]);
        vectors := vectors + [vector];
        BatchTokensStep(texts, i, ngramSize);
        i := i + 1;
      }
      assert texts[..|texts|] == texts;
    }
  }
}
