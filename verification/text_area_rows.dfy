/** The row count the log view sets after appending a line: the text is split
    with the regular expression /\r|\r\n|\n/ and the rows attribute becomes
    the number of pieces plus one. The regular expression tries its
    alternatives from left to right at each position, so "\r" always wins
    over "\r\n": a CR LF pair is two separators with an empty piece between
    them. */
module TextAreaRows {

  datatype Option<T> = None | Some(value: T)

  /** The alternatives of /\r|\r\n|\n/, in the order they are tried. */
  const LineBreak: seq<string> := ["\r", "\r\n", "\n"]

  predicate IsPrefix(p: string, s: string) {
    |p| <= |s| && s[..|p|] == p
  }

  /** Ordered alternation: the index of the first alternative, from `from`
      on, that matches at the start of `s`. */
  function FirstMatching(alts: seq<string>, s: string, from: nat): (r: Option<nat>)
    requires from <= |alts|
    ensures r.Some? ==> from <= r.value < |alts| && IsPrefix(alts[r.value], s)
    ensures r.Some? ==> forall j :: from <= j < r.value ==> !IsPrefix(alts[j], s)
    ensures r.None? ==> forall j :: from <= j < |alts| ==> !IsPrefix(alts[j], s)
    decreases |alts| - from
  {
    if from == |alts| then None
    else if IsPrefix(alts[from], s) then Some(from)
    else FirstMatching(alts, s, from + 1)
  }

  /** Length of the line-break match at the start of `s`, if any. */
  function MatchLength(s: string): (r: Option<nat>)
    ensures r.Some? ==> 1 <= r.value <= |s|
  {
    match FirstMatching(LineBreak, s, 0)
    case None => None
    case Some(k) => Some(|LineBreak[k]|)
  }

  /** A line break matches exactly where the text starts with CR or LF, and
      the match is always one character long: the "\r\n" alternative is
      never the one chosen. */
  lemma MatchLengthIsOneBreak(s: string)
    ensures MatchLength(s) == if s != [] && (s[0] == '\r' || s[0] == '\n') then Some(1) else None
    ensures FirstMatching(LineBreak, s, 0) != Some(1)
  {
  }

  /** `String.prototype.split` with the line-break expression: `piece` is the
      part of the current piece already scanned, `rest` the text not yet
      scanned. */
  function SplitFrom(rest: string, piece: string): (pieces: seq<string>)
    decreases |rest|
  {
    if rest == [] then [piece]
    else match MatchLength(rest)
      case Some(n) => [piece] + SplitFrom(rest[n..], [])
      case None => SplitFrom(rest[1..], piece + [rest[0]])
  }


  /** Number of occurrences of `c` in `s`. */
  function Count(s: string, c: char): nat {
    if s == [] then 0 else (if s[0] == c then 1 else 0) + Count(s[1..], c)
  }

  predicate IsBreak(c: char) {
    c == '\r' || c == '\n'
  }

  /** `s` with its CR and LF characters removed. */
  function WithoutBreaks(s: string): string {
    if s == [] then [] else (if IsBreak(s[0]) then [] else [s[0]]) + WithoutBreaks(s[1..])
  }

  function Concat(pieces: seq<string>): string {
    if pieces == [] then [] else pieces[0] + Concat(pieces[1..])
  }

  /** Every CR and every LF separates two pieces, so there is one piece more
      than there are break characters. */
  lemma {:induction false} SplitFromLength(rest: string, piece: string)
    ensures |SplitFrom(rest, piece)| == Count(rest, '\r') + Count(rest, '\n') + 1
    decreases |rest|
  {
    if rest != [] {
      MatchLengthIsOneBreak(rest);
      if IsBreak(rest[0]) {
        SplitFromLength(rest[1..], []);
      } else {
        SplitFromLength(rest[1..], piece + [rest[0]]);
      }
    }
  }

  /** No piece contains a line-break character. */
  lemma {:induction false} SplitFromPiecesHaveNoBreaks(rest: string, piece: string)
    requires forall i :: 0 <= i < |piece| ==> !IsBreak(piece[i])
    ensures forall p, i :: p in SplitFrom(rest, piece) && 0 <= i < |p| ==> !IsBreak(p[i])
    decreases |rest|
  {
    if rest != [] {
      MatchLengthIsOneBreak(rest);
      if IsBreak(rest[0]) {
        SplitFromPiecesHaveNoBreaks(rest[1..], []);
        assert SplitFrom(rest, piece) == [piece] + SplitFrom(rest[1..], []);
      } else {
        SplitFromPiecesHaveNoBreaks(rest[1..], piece + [rest[0]]);
      }
    }
  }

  /** Gluing the pieces back together gives the text without its breaks:
      nothing but CR and LF is lost. */
  lemma {:induction false} SplitFromContents(rest: string, piece: string)
    ensures Concat(SplitFrom(rest, piece)) == piece + WithoutBreaks(rest)
    decreases |rest|
  {
    if rest == [] {
      assert Concat([piece]) == piece + Concat([]);
    } else {
      MatchLengthIsOneBreak(rest);
      if IsBreak(rest[0]) {
        SplitFromContents(rest[1..], []);
        var tail := SplitFrom(rest[1..], []);
        assert ([piece] + tail)[1..] == tail;
      } else {
        SplitFromContents(rest[1..], piece + [rest[0]]);
        assert piece + [rest[0]] + WithoutBreaks(rest[1..]) == piece + ([rest[0]] + WithoutBreaks(rest[1..]));
      }
    }
  }

  /** The split of a whole text: one piece per break plus one, no piece holds
      a break, and the pieces hold every other character in order. */
  lemma SplitProperties(text: string)
    ensures |Split(text)| == Count(text, '\r') + Count(text, '\n') + 1
    ensures forall p, i :: p in Split(text) && 0 <= i < |p| ==> !IsBreak(p[i])
    ensures Concat(Split(text)) == WithoutBreaks(text)
  {
    SplitFromLength(text, []);
    SplitFromPiecesHaveNoBreaks(text, []);
    SplitFromContents(text, []);
  }

  /** The CR and LF characters of `s`, in order. */
  function Breaks(s: string): string {
    if s == [] then [] else (if IsBreak(s[0]) then [s[0]] else []) + Breaks(s[1..])
  }

  /** `pieces[0] + [bs[0]] + pieces[1] + [bs[1]] + ... + pieces[|bs|]`: the
      pieces glued back together with the given separators. */
  function Interleave(pieces: seq<string>, bs: string): string
    requires |pieces| == |bs| + 1
    decreases |bs|
  {
    if bs == [] then pieces[0] else pieces[0] + [bs[0]] + Interleave(pieces[1..], bs[1..])
  }

  predicate NoBreaks(p: string) {
    forall i :: 0 <= i < |p| ==> !IsBreak(p[i])
  }

  /** A reference definition of the split that cuts at every CR and LF,
      without going through the regular expression. */
  function SplitAtBreaks(rest: string, piece: string): seq<string>
    decreases |rest|
  {
    if rest == [] then [piece]
    else if IsBreak(rest[0]) then [piece] + SplitAtBreaks(rest[1..], [])
    else SplitAtBreaks(rest[1..], piece + [rest[0]])
  }

  /** Splitting with the regular expression is cutting at every break. */
  lemma {:induction false} SplitFromIsSplitAtBreaks(rest: string, piece: string)
    ensures SplitFrom(rest, piece) == SplitAtBreaks(rest, piece)
    decreases |rest|
  {
    if rest != [] {
      MatchLengthIsOneBreak(rest);
      if IsBreak(rest[0]) {
        SplitFromIsSplitAtBreaks(rest[1..], []);
      } else {
        SplitFromIsSplitAtBreaks(rest[1..], piece + [rest[0]]);
      }
    }
  }

  lemma InterleaveCons(p: string, tail: seq<string>, b: char, bs: string)
    requires |tail| == |bs| + 1
    ensures Interleave([p] + tail, [b] + bs) == p + [b] + Interleave(tail, bs)
  {
    assert ([p] + tail)[1..] == tail && ([b] + bs)[1..] == bs;
  }

  /** The pieces, with the break characters put back between them, rebuild
      the scanned text exactly. */
  lemma {:induction false} SplitAtBreaksRebuilds(rest: string, piece: string)
    ensures |SplitAtBreaks(rest, piece)| == |Breaks(rest)| + 1
    ensures Interleave(SplitAtBreaks(rest, piece), Breaks(rest)) == piece + rest
    decreases |rest|
  {
    if rest == [] {
      assert piece + rest == piece;
    } else if IsBreak(rest[0]) {
      var tail, bs := SplitAtBreaks(rest[1..], []), Breaks(rest[1..]);
      SplitAtBreaksRebuilds(rest[1..], []);
      assert [] + rest[1..] == rest[1..];
      assert Breaks(rest) == [rest[0]] + bs;
      InterleaveCons(piece, tail, rest[0], bs);
      assert piece + [rest[0]] + rest[1..] == piece + rest;
    } else {
      SplitAtBreaksRebuilds(rest[1..], piece + [rest[0]]);
      assert Breaks(rest) == [] + Breaks(rest[1..]) == Breaks(rest[1..]);
      assert piece + [rest[0]] + rest[1..] == piece + rest;
    }
  }

  lemma {:induction false} BreaksAreBreaks(s: string)
    ensures forall i :: 0 <= i < |Breaks(s)| ==> IsBreak(Breaks(s)[i])
    decreases |s|
  {
    if s != [] {
      BreaksAreBreaks(s[1..]);
    }
  }

  /** Any break-free pieces that rebuild `rest` around break separators are
      the pieces the split finds (the first one extended by `piece`). */
  lemma {:induction false} SplitAtBreaksUnique(rest: string, piece: string, pieces: seq<string>, bs: string)
    requires |pieces| == |bs| + 1
    requires forall k :: 0 <= k < |pieces| ==> NoBreaks(pieces[k])
    requires forall i :: 0 <= i < |bs| ==> IsBreak(bs[i])
    requires Interleave(pieces, bs) == rest
    ensures SplitAtBreaks(rest, piece) == [piece + pieces[0]] + pieces[1..]
    decreases |rest|
  {
    if rest == [] {
      assert pieces[0] == [] && pieces == [pieces[0]];
      assert piece + pieces[0] == piece;
    } else if pieces[0] != [] {
      var first := pieces[0][1..];
      var pieces' := [first] + pieces[1..];
      assert pieces'[1..] == pieces[1..];
      assert NoBreaks(pieces'[0]);
      assert rest[0] == pieces[0][0];
      if bs == [] {
        assert Interleave(pieces', bs) == first;
      } else {
        assert Interleave(pieces', bs) == first + [bs[0]] + Interleave(pieces[1..], bs[1..]);
        assert pieces[0] + [bs[0]] + Interleave(pieces[1..], bs[1..])
            == [pieces[0][0]] + (first + [bs[0]] + Interleave(pieces[1..], bs[1..]));
      }
      assert Interleave(pieces', bs) == rest[1..];
      SplitAtBreaksUnique(rest[1..], piece + [rest[0]], pieces', bs);
      assert piece + [rest[0]] + first == piece + pieces[0];
    } else {
      assert bs != [];
      assert rest == [bs[0]] + Interleave(pieces[1..], bs[1..]);
      assert rest[1..] == Interleave(pieces[1..], bs[1..]);
      SplitAtBreaksUnique(rest[1..], [], pieces[1..], bs[1..]);
      assert [] + pieces[1] == pieces[1];
      assert pieces[1..] == [pieces[1]] + pieces[2..];
      assert piece + pieces[0] == piece;
    }
  }

  /** The pieces of `text` between line breaks (`text.split(/\r|\r\n|\n/)`):
      there is one more piece than there are CR and LF characters, no piece
      holds a break, and the pieces with the breaks put back between them
      are the text. */
  function Split(text: string): (pieces: seq<string>)
    ensures |pieces| == |Breaks(text)| + 1
    ensures Interleave(pieces, Breaks(text)) == text
    ensures forall k :: 0 <= k < |pieces| ==> NoBreaks(pieces[k])
  {
    SplitFromIsSplitAtBreaks(text, []);
    SplitAtBreaksRebuilds(text, []);
    assert [] + text == text;
    SplitFromPiecesHaveNoBreaks(text, []);
    var pieces := SplitFrom(text, []);
    assert forall k :: 0 <= k < |pieces| ==> pieces[k] in pieces;
    pieces
  }

  /** The contract of `Split` determines its result: any break-free pieces
      that rebuild the text around its break characters are its split. */
  lemma SplitUnique(text: string, pieces: seq<string>)
    requires |pieces| == |Breaks(text)| + 1
    requires Interleave(pieces, Breaks(text)) == text
    requires forall k :: 0 <= k < |pieces| ==> NoBreaks(pieces[k])
    ensures pieces == Split(text)
  {
    SplitFromIsSplitAtBreaks(text, []);
    BreaksAreBreaks(text);
    SplitAtBreaksUnique(text, [], pieces, Breaks(text));
    assert [] + pieces[0] == pieces[0];
    assert [pieces[0]] + pieces[1..] == pieces;
  }

  /** The rows attribute `incrementTextAreaRow` sets for the given text:
      the number of pieces plus one, i.e. one row per CR, one per LF, and
      two more. */
  function IncrementTextAreaRow(text: string): (rows: nat)
    ensures rows == Count(text, '\r') + Count(text, '\n') + 2
  {
    SplitFromLength(text, []);
    |Split(text)| + 1
  }

  lemma {:induction false} CountAppend(a: string, b: string, c: char)
    ensures Count(a + b, c) == Count(a, c) + Count(b, c)
    decreases |a|
  {
    if a != [] {
      assert (a + b)[1..] == a[1..] + b;
      CountAppend(a[1..], b, c);
    } else {
      assert a + b == b;
    }
  }

  /** Appending a CR LF pair adds two rows, not one. */
  lemma CrLfAddsTwoRows(text: string)
    ensures IncrementTextAreaRow(text + "\r\n") == IncrementTextAreaRow(text) + 2
  {
    CountAppend(text, "\r\n", '\r');
    CountAppend(text, "\r\n", '\n');
    assert Count("\r\n", '\r') == 1 && Count("\r\n", '\n') == 1 by {
      assert "\r\n"[1..] == "\n";
      assert "\n"[1..] == "";
    }
  }

  /** Worked values: an empty text has one (empty) piece; "a\r\nb" has three
      pieces, the middle one empty. */
  lemma SplitExamples()
    ensures Split("") == [""]
    ensures IncrementTextAreaRow("") == 2
    ensures Split("a\r\nb") == ["a", "", "b"]
    ensures IncrementTextAreaRow("a\r\nb") == 4
  {
    var s := "a\r\nb";
    MatchLengthIsOneBreak(s);
    MatchLengthIsOneBreak(s[1..]);
    MatchLengthIsOneBreak(s[2..]);
    MatchLengthIsOneBreak(s[3..]);
    assert s[1..][1..] == s[2..] && s[2..][1..] == s[3..] && s[3..][1..] == [];
    assert [] + [s[0]] == "a" && [] + [s[3]] == "b";
    assert Split(s) == SplitFrom(s[1..], "a");
    assert SplitFrom(s[1..], "a") == ["a"] + SplitFrom(s[2..], []);
    assert SplitFrom(s[2..], []) == [""] + SplitFrom(s[3..], []);
    assert SplitFrom(s[3..], []) == SplitFrom([], "b");
  }
}
