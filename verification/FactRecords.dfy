/** Facts, and how the kernel reads their text. */
module FactRecords {
  import opened Common
  import opened Text

  datatype Reality = Observed | Inferred | Simulated | Hypothetical | Conflict | Unknown

  /** A fact as the kernel stores it; confidence is in basis points, when it was assessed. */
  datatype FactRecord = FactRecord(
    id: string,
    factType: string,
    statement: string,
    scopeKey: Option<string>,
    status: string,
    reality: Reality,
    confidence: Option<nat>,
    evidence: seq<string>,
    relations: seq<string>,
    updatedAt: int)

  /** The text analysis of the kernel: search tokens, type keys, lower case, and normal form of statements. */
  datatype Lexicon = Lexicon(
    tokens: string -> seq<string>,
    typeKey: string -> string,
    lower: string -> string,
    normal: string -> string)

  /** The analysis in use, for given Unicode tables of alphanumeric characters and lower-casing. */
  function LexiconOf(alphanumeric: char -> bool, lower: string -> string): Lexicon {
    Lexicon(
      s => Tokenize(Split(s, Outside(alphanumeric)), lower),
      s => lower(Trim(s)),
      lower,
      s => lower(Join(WordsOf(s))))
  }

  /** The characters that a class does not hold. */
  function Outside(alphanumeric: char -> bool): char -> bool { c => !alphanumeric(c) }

  /** The pieces between separators; there is always at least one piece. */
  function Split(s: string, separator: char -> bool): (r: seq<string>)
    ensures r != []
  {
    if s == [] then [[]]
    else
      var rest := Split(s[1..], separator);
      if separator(s[0]) then [[]] + rest else [[s[0]] + rest[0]] + rest[1..]
  }

  function Tokenize(pieces: seq<string>, lower: string -> string): seq<string> {
    if pieces == [] then []
    else
      var token := lower(Trim(pieces[0]));
      (if token == [] then [] else [token]) + Tokenize(pieces[1..], lower)
  }

  function Words(pieces: seq<string>): seq<string> {
    if pieces == [] then [] else (if pieces[0] == [] then [] else [pieces[0]]) + Words(pieces[1..])
  }

  /** The words of a text, at any white space. */
  function WordsOf(s: string): seq<string> { Words(Split(s, IsWhitespace)) }

  function Join(words: seq<string>): string {
    if words == [] then [] else if |words| == 1 then words[0] else words[0] + [' '] + Join(words[1..])
  }

  // ---- What the analysis means ----

  /** A longest stretch without separators. */
  ghost predicate IsPiece(s: string, separator: char -> bool, i: int, j: int) {
    && 0 <= i <= j <= |s| && (forall k :: i <= k < j ==> !separator(s[k]))
    && (i == 0 || separator(s[i - 1])) && (j == |s| || separator(s[j]))
  }

  lemma {:induction false} FirstPiece(s: string, separator: char -> bool)
    ensures |Split(s, separator)[0]| <= |s| && Split(s, separator)[0] == s[..|Split(s, separator)[0]|]
    ensures IsPiece(s, separator, 0, |Split(s, separator)[0]|)
  {
    if s != [] && !separator(s[0]) {
      FirstPiece(s[1..], separator);
      var n := |Split(s[1..], separator)[0]|;
      assert s[..n + 1] == [s[0]] + s[1..][..n];
      assert forall k :: 0 < k < n + 1 ==> s[k] == s[1..][k - 1];
    }
  }

  /** At a separator a text splits into the pieces before it and the pieces after it. */
  lemma {:induction false} SplitAt(a: string, c: char, b: string, separator: char -> bool)
    requires separator(c)
    ensures Split(a + [c] + b, separator) == Split(a, separator) + Split(b, separator)
  {
    var s := a + [c] + b;
    if a == [] {
      assert s[1..] == b;
    } else {
      assert s[1..] == a[1..] + [c] + b;
      SplitAt(a[1..], c, b, separator);
    }
  }

  lemma Shifted(p: string, b: string, i: nat, j: nat)
    requires i <= j <= |b|
    ensures (p + b)[|p| + i..|p| + j] == b[i..j]
  {
  }

  lemma PieceBefore(p: string, b: string, separator: char -> bool, i: int, j: int)
    requires p != [] && separator(p[|p| - 1]) && (forall k :: 0 <= k < |p| - 1 ==> !separator(p[k]))
    requires IsPiece(p + b, separator, i, j) && i < |p|
    ensures i == 0 && j == |p| - 1
  {
    var s := p + b;
    assert forall k :: 0 <= k < |p| ==> s[k] == p[k];
  }

  lemma PieceAfter(p: string, b: string, separator: char -> bool, i: int, j: int)
    requires p != [] && separator(p[|p| - 1])
    ensures 0 <= i ==> (IsPiece(p + b, separator, |p| + i, |p| + j) <==> IsPiece(b, separator, i, j))
  {
    var s := p + b;
    assert s[|p| - 1] == p[|p| - 1];
    assert forall k :: 0 <= k < |b| ==> s[|p| + k] == b[k];
    if 0 <= i && IsPiece(s, separator, |p| + i, |p| + j) {
      forall k | i <= k < j ensures !separator(b[k]) {
        assert s[|p| + k] == b[k];
      }
    }
  }

  /** Splitting yields exactly the longest stretches without separators. */
  lemma {:induction false} PiecesExactly(s: string, separator: char -> bool, piece: string)
    ensures piece in Split(s, separator) <==> exists i, j :: IsPiece(s, separator, i, j) && s[i..j] == piece
    decreases |s|
  {
    FirstPiece(s, separator);
    var n := |Split(s, separator)[0]|;
    assert s[0..n] == s[..n];
    if n == |s| {
      WholePiece(s, separator);
    } else {
      var p, b := s[..n + 1], s[n + 1..];
      assert s == s[..n] + [s[n]] + b && s == p + b;
      SplitAt(s[..n], s[n], b, separator);
      WholePiece(s[..n], separator);
      PiecesExactly(b, separator, piece);
      PieceEitherSide(p, b, separator, piece);
    }
  }

  lemma PieceEitherSide(p: string, b: string, separator: char -> bool, piece: string)
    requires p != [] && separator(p[|p| - 1]) && (forall k :: 0 <= k < |p| - 1 ==> !separator(p[k]))
    ensures (exists i, j :: IsPiece(p + b, separator, i, j) && (p + b)[i..j] == piece)
            <==> piece == p[..|p| - 1] || exists i, j :: IsPiece(b, separator, i, j) && b[i..j] == piece
  {
    var s := p + b;
    if i, j :| IsPiece(s, separator, i, j) && s[i..j] == piece {
      if i < |p| {
        PieceBefore(p, b, separator, i, j);
        assert s[0..|p| - 1] == p[..|p| - 1];
      } else {
        PieceAfter(p, b, separator, i - |p|, j - |p|);
        Shifted(p, b, i - |p|, j - |p|);
      }
    }
    if piece == p[..|p| - 1] {
      assert forall k :: 0 <= k < |p| ==> s[k] == p[k];
      assert IsPiece(s, separator, 0, |p| - 1) && s[0..|p| - 1] == piece;
    }
    if i, j :| IsPiece(b, separator, i, j) && b[i..j] == piece {
      PieceAfter(p, b, separator, i, j);
      Shifted(p, b, i, j);
    }
  }

  lemma {:induction false} WholePiece(s: string, separator: char -> bool)
    requires forall k :: 0 <= k < |s| ==> !separator(s[k])
    ensures Split(s, separator) == [s]
  {
    if s != [] {
      WholePiece(s[1..], separator);
      assert [s[0]] + s[1..] == s;
    }
  }

  /** The tokens of a list of pieces are the lower-cased pieces, without the empty ones. */
  lemma {:induction false} TokensExactly(pieces: seq<string>, lower: string -> string, token: string)
    ensures token in Tokenize(pieces, lower) <==> token != [] && exists p :: p in pieces && lower(Trim(p)) == token
  {
    if pieces != [] {
      TokensExactly(pieces[1..], lower, token);
      assert pieces == [pieces[0]] + pieces[1..];
    }
  }

  lemma {:induction false} WordsConcat(a: seq<string>, b: seq<string>)
    ensures Words(a + b) == Words(a) + Words(b)
  {
    if a == [] {
      assert a + b == b;
    } else {
      assert (a + b)[1..] == a[1..] + b;
      WordsConcat(a[1..], b);
    }
  }

  lemma WordsAt(a: string, c: char, b: string)
    requires IsWhitespace(c)
    ensures WordsOf(a + [c] + b) == WordsOf(a) + WordsOf(b)
  {
    SplitAt(a, c, b, IsWhitespace);
    WordsConcat(Split(a, IsWhitespace), Split(b, IsWhitespace));
  }

  lemma WordsOfSpace(c: char, b: string)
    requires IsWhitespace(c)
    ensures WordsOf([c] + b) == WordsOf(b)
  {
    WordsAt([], c, b);
    assert [] + [c] + b == [c] + b;
  }

  lemma NoWords(s: string)
    requires s == []
    ensures WordsOf(s) == []
  {
    var pieces := Split(s, IsWhitespace);
    assert pieces[0] == [] && pieces[1..] == [];
    assert Words(pieces[1..]) == [];
  }

  lemma {:induction false} BlankHasNoWords(gap: string, s: string)
    requires Blank(gap)
    ensures WordsOf(gap + s) == WordsOf(s)
  {
    if gap == [] {
      assert gap + s == s;
    } else {
      assert gap + s == [gap[0]] + (gap[1..] + s);
      WordsOfSpace(gap[0], gap[1..] + s);
      assert forall i :: 0 <= i < |gap[1..]| ==> gap[1..][i] == gap[i + 1];
      BlankHasNoWords(gap[1..], s);
    }
  }

  predicate IsWord(w: string) { w != [] && forall i :: 0 <= i < |w| ==> !IsWhitespace(w[i]) }

  lemma WordThenRest(w: string, rest: string)
    requires IsWord(w) && (rest == [] || IsWhitespace(rest[0]))
    ensures WordsOf(w + rest) == [w] + WordsOf(rest)
  {
    WholePiece(w, IsWhitespace);
    var pieces := Split(w, IsWhitespace);
    assert pieces == [w] && pieces[1..] == [] && Words(pieces[1..]) == [];
    assert Words(pieces) == [w] + Words(pieces[1..]);
    if rest == [] {
      assert w + rest == w;
      NoWords(rest);
    } else {
      assert w + rest == w + [rest[0]] + rest[1..] && rest == [rest[0]] + rest[1..];
      WordsAt(w, rest[0], rest[1..]);
      WordsOfSpace(rest[0], rest[1..]);
    }
  }

  /** Words with a gap before each and one at the end. */
  function Spaced(words: seq<string>, gaps: seq<string>): string
    requires |gaps| == |words| + 1
  {
    if words == [] then gaps[0] else gaps[0] + (words[0] + Spaced(words[1..], gaps[1..]))
  }

  /** Gaps are white space, and there is some between any two words. */
  predicate AreGaps(gaps: seq<string>) {
    && (forall i :: 0 <= i < |gaps| ==> Blank(gaps[i]))
    && (forall i :: 0 < i < |gaps| - 1 ==> gaps[i] != [])
  }

  lemma SpacedStart(words: seq<string>, gaps: seq<string>)
    requires |gaps| == |words| + 1 && Blank(gaps[0]) && (words != [] ==> gaps[0] != [])
    ensures Spaced(words, gaps) == [] || IsWhitespace(Spaced(words, gaps)[0])
  {
    if gaps[0] != [] {
      assert Spaced(words, gaps)[0] == gaps[0][0];
    }
  }

  /** However words are spaced, they are the words of the text; so texts that differ only in their white space have the
      same normal form. */
  lemma {:induction false} SpacingIsForgotten(words: seq<string>, gaps: seq<string>)
    requires |gaps| == |words| + 1 && AreGaps(gaps) && forall i :: 0 <= i < |words| ==> IsWord(words[i])
    ensures WordsOf(Spaced(words, gaps)) == words
  {
    if words == [] {
      var nothing: string := [];
      BlankHasNoWords(gaps[0], nothing);
      NoWords(nothing);
      assert gaps[0] + nothing == gaps[0];
    } else {
      var rest := Spaced(words[1..], gaps[1..]);
      assert forall i :: 0 <= i < |gaps[1..]| ==> gaps[1..][i] == gaps[i + 1];
      BlankHasNoWords(gaps[0], words[0] + rest);
      SpacedStart(words[1..], gaps[1..]);
      WordThenRest(words[0], rest);
      SpacingIsForgotten(words[1..], gaps[1..]);
    }
  }

  /** A lower-cased longest stretch of alphanumeric characters. */
  ghost predicate IsToken(alphanumeric: char -> bool, lower: string -> string, s: string, token: string) {
    token != [] && exists i, j :: IsPiece(s, Outside(alphanumeric), i, j) && lower(Trim(s[i..j])) == token
  }

  /** The search tokens of a text are exactly those. */
  lemma TokenExactly(alphanumeric: char -> bool, lower: string -> string, s: string, token: string)
    ensures token in LexiconOf(alphanumeric, lower).tokens(s) <==> IsToken(alphanumeric, lower, s, token)
  {
    var separator := Outside(alphanumeric);
    var pieces := Split(s, separator);
    assert LexiconOf(alphanumeric, lower).tokens(s) == Tokenize(pieces, lower);
    TokensExactly(pieces, lower, token);
    if p :| p in pieces && lower(Trim(p)) == token {
      PiecesExactly(s, separator, p);
    }
    if i, j :| IsPiece(s, separator, i, j) && lower(Trim(s[i..j])) == token {
      PiecesExactly(s, separator, s[i..j]);
    }
  }
}
