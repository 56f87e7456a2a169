/** The parts of `java.lang.String` and `java.util.regex` that the calculator
    depends on: `isBlank`, the line terminators that regex `.` refuses, and
    `split` with a regex that matches exactly one character of a fixed set. */
module JavaText {

  /** `Character.isWhitespace`: the Unicode space, line and paragraph
      separators except the three no-break spaces, plus the ASCII controls
      tab, line feed, vertical tab, form feed, carriage return and U+001C..U+001F. */
  predicate IsWhitespace(c: char) {
    || c == ' '
    || '\t' <= c <= '\r'
    || '\U{1C}' <= c <= '\U{1F}'
    || c == '\U{1680}'
    || '\U{2000}' <= c <= '\U{2006}'
    || '\U{2008}' <= c <= '\U{200A}'
    || c == '\U{2028}' || c == '\U{2029}'
    || c == '\U{205F}' || c == '\U{3000}'
  }

  /** `String.isBlank`: empty, or whitespace only. A blank text holds no
      printable ASCII character: no digit, sign, separator or slash. */
  function IsBlank(s: string): (b: bool)
    ensures s == [] ==> b
    ensures b ==> forall k :: 0 <= k < |s| ==> !('!' <= s[k] <= '~')
  {
    forall k :: 0 <= k < |s| ==> IsWhitespace(s[k])
  }

  /** The line terminators that `.` does not match when a pattern is compiled
      without DOTALL or UNIX_LINES. */
  const LineTerminators: set<char> := {'\n', '\r', '\U{85}', '\U{2028}', '\U{2029}'}

  predicate IsLineTerminator(c: char) {
    c in LineTerminators
  }

  predicate NoneIn(s: string, seps: set<char>) {
    forall k :: 0 <= k < |s| ==> s[k] !in seps
  }

  /** Cutting `s` at every occurrence of a character of `seps`, keeping every
      piece, empty ones included: n separators give n + 1 pieces. */
  function Pieces(s: string, seps: set<char>): (r: seq<string>)
    ensures |r| >= 1
    ensures forall p :: 0 <= p < |r| ==> NoneIn(r[p], seps)
  {
    if s == [] then [[]]
    else
      var rest := Pieces(s[1..], seps);
      if s[0] in seps then [[]] + rest
      else [[s[0]] + rest[0]] + rest[1..]
  }

  /** The array list trimmed as `split` with limit 0 trims it: trailing empty
      strings are removed, nothing else. */
  function DropTrailingEmpty(pieces: seq<string>): (r: seq<string>)
    ensures |r| <= |pieces| && r == pieces[..|r|]
    ensures forall p :: |r| <= p < |pieces| ==> pieces[p] == []
    ensures r == [] || r[|r| - 1] != []
  {
    if pieces == [] || pieces[|pieces| - 1] != [] then pieces
    else DropTrailingEmpty(pieces[..|pieces| - 1])
  }

  /** `s.split(regex)` for a regex matching one character of `seps`: when
      nothing matches the result is `s` itself (even an empty `s`); otherwise
      the pieces between matches, leading and inner empty pieces kept,
      trailing empty pieces removed. */
  function Split(s: string, seps: set<char>): seq<string>
  {
    if NoneIn(s, seps) then [s] else DropTrailingEmpty(Pieces(s, seps))
  }

  /** No token holds a separator; a text without separators is its only
      token; otherwise the last token, if any, is non-empty. */
  lemma SplitTokens(s: string, seps: set<char>)
    ensures forall t :: 0 <= t < |Split(s, seps)| ==> NoneIn(Split(s, seps)[t], seps)
    ensures NoneIn(s, seps) ==> Split(s, seps) == [s]
    ensures !NoneIn(s, seps) ==> Split(s, seps) == [] || Split(s, seps)[|Split(s, seps)| - 1] != []
  {
  }

  /** The pieces separated by `sep` put back together. */
  function Join(pieces: seq<string>, sep: char): string
    requires |pieces| >= 1
  {
    if |pieces| == 1 then pieces[0] else pieces[0] + [sep] + Join(pieces[1..], sep)
  }

  /** A joined text holds only the pieces' characters and the separator. */
  lemma {:induction false} JoinNoneIn(pieces: seq<string>, sep: char, chars: set<char>)
    requires |pieces| >= 1 && sep !in chars
    requires forall p :: 0 <= p < |pieces| ==> NoneIn(pieces[p], chars)
    ensures NoneIn(Join(pieces, sep), chars)
  {
    if |pieces| > 1 {
      JoinNoneIn(pieces[1..], sep, chars);
    }
  }

  // ---------------------------------------------------------------------
  // Pieces and Join are inverse to each other

  /** Joining the pieces with the one separator restores the text. */
  lemma {:induction false} JoinPieces(s: string, sep: char)
    ensures Join(Pieces(s, {sep}), sep) == s
  {
    if s != [] {
      var rest := Pieces(s[1..], {sep});
      JoinPieces(s[1..], sep);
      if s[0] != sep {
        var r := Pieces(s, {sep});
        assert r[1..] == rest[1..];
        if |rest| > 1 {
          assert rest == [rest[0]] + rest[1..];
          assert Join(rest, sep) == rest[0] + [sep] + Join(rest[1..], sep);
        }
      }
    }
  }

  lemma {:induction false} PiecesOfSeparatorFree(s: string, seps: set<char>)
    requires NoneIn(s, seps)
    ensures Pieces(s, seps) == [s]
  {
    if s != [] {
      PiecesOfSeparatorFree(s[1..], seps);
      assert [s[0]] + s[1..] == s;
    }
  }

  lemma {:induction false} PiecesOfCut(a: string, sep: char, b: string, seps: set<char>)
    requires NoneIn(a, seps) && sep in seps
    ensures Pieces(a + [sep] + b, seps) == [a] + Pieces(b, seps)
  {
    var s := a + [sep] + b;
    if a == [] {
      assert s[1..] == b;
    } else {
      assert s[1..] == a[1..] + [sep] + b;
      PiecesOfCut(a[1..], sep, b, seps);
      var rest := Pieces(s[1..], seps);
      assert rest[0] == a[1..] && rest[1..] == Pieces(b, seps);
      assert [a[0]] + a[1..] == a;
    }
  }

  /** Cutting a joined text restores the pieces, provided no piece holds a
      separator. */
  lemma {:induction false} PiecesOfJoin(pieces: seq<string>, sep: char, seps: set<char>)
    requires |pieces| >= 1 && sep in seps
    requires forall p :: 0 <= p < |pieces| ==> NoneIn(pieces[p], seps)
    ensures Pieces(Join(pieces, sep), seps) == pieces
  {
    if |pieces| == 1 {
      PiecesOfSeparatorFree(pieces[0], seps);
    } else {
      PiecesOfJoin(pieces[1..], sep, seps);
      PiecesOfCut(pieces[0], sep, Join(pieces[1..], sep), seps);
    }
  }

  // ---------------------------------------------------------------------
  // What Split keeps and what it drops

  /** Every character that is not a separator lands in some piece. */
  lemma {:induction false} PiecesCover(s: string, seps: set<char>, i: nat)
    requires i < |s| && s[i] !in seps
    ensures exists p :: 0 <= p < |Pieces(s, seps)| && s[i] in Pieces(s, seps)[p]
  {
    var r := Pieces(s, seps);
    if i == 0 {
      assert s[0] in r[0];
    } else {
      var rest := Pieces(s[1..], seps);
      PiecesCover(s[1..], seps, i - 1);
      var p :| 0 <= p < |rest| && s[i] in rest[p];
      if s[0] in seps {
        assert r[p + 1] == rest[p];
      } else if p == 0 {
        assert r[0] == [s[0]] + rest[0];
      } else {
        assert r[p] == rest[p];
      }
    }
  }

  lemma {:induction false} PiecesAllEmpty(s: string, seps: set<char>)
    requires forall k :: 0 <= k < |s| ==> s[k] in seps
    ensures forall p :: 0 <= p < |Pieces(s, seps)| ==> Pieces(s, seps)[p] == []
  {
    if s != [] {
      PiecesAllEmpty(s[1..], seps);
    }
  }

  /** Every character that is not a separator lands in some token of `split`. */
  lemma SplitCovers(s: string, seps: set<char>, i: nat)
    requires i < |s| && s[i] !in seps
    ensures exists t :: 0 <= t < |Split(s, seps)| && s[i] in Split(s, seps)[t]
  {
    if NoneIn(s, seps) {
      assert s[i] in Split(s, seps)[0];
    } else {
      var pieces := Pieces(s, seps);
      var r := DropTrailingEmpty(pieces);
      PiecesCover(s, seps, i);
      var p :| 0 <= p < |pieces| && s[i] in pieces[p];
      assert pieces[p] != [];
      assert p < |r| && r[p] == pieces[p];
      assert s[i] in Split(s, seps)[p];
    }
  }

  /** `split` yields no token at all exactly when the text is non-empty and
      made of separators only. */
  lemma SplitEmptyIff(s: string, seps: set<char>)
    ensures Split(s, seps) == [] <==> |s| > 0 && forall k :: 0 <= k < |s| ==> s[k] in seps
  {
    if |s| > 0 && forall k :: 0 <= k < |s| ==> s[k] in seps {
      assert s[0] in seps;
      PiecesAllEmpty(s, seps);
    }
    if Split(s, seps) == [] && exists k :: 0 <= k < |s| && s[k] !in seps {
      var k :| 0 <= k < |s| && s[k] !in seps;
      SplitCovers(s, seps, k);
    }
  }

  /** An empty piece that comes before a non-empty one survives `split`. */
  lemma SplitKeepsInnerEmpty(s: string, seps: set<char>, p: nat, q: nat)
    requires p < q < |Pieces(s, seps)|
    requires Pieces(s, seps)[p] == [] && Pieces(s, seps)[q] != []
    ensures p < |Split(s, seps)| && Split(s, seps)[p] == []
  {
    if NoneIn(s, seps) {
      PiecesOfSeparatorFree(s, seps);
    }
  }

  /** A separator-free piece sequence ending in a non-empty piece comes back
      unchanged from `split` of its join. */
  lemma SplitOfJoin(pieces: seq<string>, sep: char, seps: set<char>)
    requires |pieces| >= 1 && sep in seps
    requires forall p :: 0 <= p < |pieces| ==> NoneIn(pieces[p], seps)
    requires pieces[|pieces| - 1] != []
    ensures Split(Join(pieces, sep), seps) == pieces
  {
    var s := Join(pieces, sep);
    if |pieces| >= 2 {
      PiecesOfJoin(pieces, sep, seps);
      assert s == pieces[0] + [sep] + Join(pieces[1..], sep);
      assert s[|pieces[0]|] == sep;
    }
  }

  /** Texts with their separators in the same places, and equal elsewhere,
      are cut into the same pieces: which separator sits where is irrelevant. */
  predicate SameLayout(s: string, u: string, seps: set<char>) {
    && |s| == |u|
    && forall k :: 0 <= k < |s| ==> (s[k] in seps <==> u[k] in seps) && (s[k] !in seps ==> s[k] == u[k])
  }

  lemma {:induction false} PiecesOfSameLayout(s: string, u: string, seps: set<char>)
    requires SameLayout(s, u, seps)
    ensures Pieces(s, seps) == Pieces(u, seps)
  {
    if s != [] {
      PiecesOfSameLayout(s[1..], u[1..], seps);
    }
  }

  lemma SplitOfSameLayout(s: string, u: string, seps: set<char>)
    requires SameLayout(s, u, seps)
    ensures Split(s, seps) == Split(u, seps)
  {
    PiecesOfSameLayout(s, u, seps);
    if NoneIn(s, seps) {
      assert s == u;
    }
  }

  /** A separator that does not occur changes nothing. */
  lemma {:induction false} PiecesIgnoreAbsentSeparator(s: string, seps: set<char>, extra: char)
    requires forall k :: 0 <= k < |s| ==> s[k] != extra
    ensures Pieces(s, seps + {extra}) == Pieces(s, seps)
  {
    if s != [] {
      PiecesIgnoreAbsentSeparator(s[1..], seps, extra);
    }
  }

  lemma SplitIgnoresAbsentSeparator(s: string, seps: set<char>, extra: char)
    requires forall k :: 0 <= k < |s| ==> s[k] != extra
    ensures Split(s, seps + {extra}) == Split(s, seps)
  {
    PiecesIgnoreAbsentSeparator(s, seps, extra);
  }
}
