/** Splitting text the way Python's `str.split(sep)` does for a
    one-character separator: every occurrence of the separator ends a piece,
    empty pieces are kept, and there is always one piece more than there are
    separators. */
module Text {

  /** Glues pieces back together with one separator between neighbours. */
  function Join(pieces: seq<string>, sep: char): string
    requires |pieces| >= 1
    decreases |pieces|
  {
    if |pieces| == 1 then pieces[0] else pieces[0] + [sep] + Join(pieces[1..], sep)
  }

  /** Python's `s.split(sep)`. */
  function Split(s: string, sep: char): (pieces: seq<string>)
    ensures |pieces| >= 1
    ensures forall i :: 0 <= i < |pieces| ==> sep !in pieces[i]
    ensures Join(pieces, sep) == s
    decreases |s|
  {
    if s == [] then [""]
    else
      var rest := Split(s[1..], sep);
      if s[0] == sep then
        [""] + rest
      else
        JoinExtendFirst(rest, [s[0]], sep);
        [[s[0]] + rest[0]] + rest[1..]
  }

  lemma JoinExtendFirst(pieces: seq<string>, prefix: string, sep: char)
    requires |pieces| >= 1
    ensures Join([prefix + pieces[0]] + pieces[1..], sep) == prefix + Join(pieces, sep)
  {
    var q := [prefix + pieces[0]] + pieces[1..];
    assert q[1..] == pieces[1..];
  }

  /** There is one piece more than there are separators. */
  lemma {:induction false} SplitCount(s: string, sep: char)
    ensures |Split(s, sep)| == multiset(s)[sep] + 1
    decreases |s|
  {
    if s != [] {
      SplitCount(s[1..], sep);
      assert s == [s[0]] + s[1..];
      SplitCons(s[0], s[1..], sep);
    }
  }

  /** Text without the separator is a single piece. */
  lemma SplitWithoutSeparator(s: string, sep: char)
    requires sep !in s
    ensures Split(s, sep) == [s]
  {
  }

  /** A separator-free prefix followed by the separator becomes a piece of its own. */
  lemma {:induction false} SplitAfterPiece(piece: string, sep: char, rest: string)
    requires sep !in piece
    ensures Split(piece + [sep] + rest, sep) == [piece] + Split(rest, sep)
  {
    if piece == [] {
      assert piece + [sep] + rest == [sep] + rest;
      SplitCons(sep, rest, sep);
    } else {
      var tail := piece[1..] + [sep] + rest;
      assert piece + [sep] + rest == [piece[0]] + tail;
      SplitCons(piece[0], tail, sep);
      SplitAfterPiece(piece[1..], sep, rest);
      var r := Split(tail, sep);
      assert r[0] == piece[1..] && r[1..] == Split(rest, sep);
      assert [piece[0]] + piece[1..] == piece;
    }
  }

  /** One step of `Split`, stated on a leading character. */
  lemma SplitCons(c: char, t: string, sep: char)
    ensures Split([c] + t, sep) ==
      if c == sep then [""] + Split(t, sep) else [[c] + Split(t, sep)[0]] + Split(t, sep)[1..]
  {
    assert ([c] + t)[1..] == t;
  }

  /** Splitting undoes joining separator-free pieces. */
  lemma {:induction false} SplitJoin(pieces: seq<string>, sep: char)
    requires |pieces| >= 1
    requires forall i :: 0 <= i < |pieces| ==> sep !in pieces[i]
    ensures Split(Join(pieces, sep), sep) == pieces
    decreases |pieces|
  {
    if |pieces| == 1 {
      SplitWithoutSeparator(pieces[0], sep);
    } else {
      SplitJoin(pieces[1..], sep);
      SplitAfterPiece(pieces[0], sep, Join(pieces[1..], sep));
    }
  }
}
