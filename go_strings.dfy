/**
  The two Go string helpers the model needs: strings.Join, which the
  settings dialog uses to build the capture-filter expression, and
  strings.Split, which is Join's inverse and serves as the reference the
  dialog's output is checked against.
*/
module GoStrings {

  /** strings.Join: the parts, in order, with `sep` between consecutive ones. */
  function Join(parts: seq<string>, sep: string): string
  {
    if |parts| == 0 then ""
    else if |parts| == 1 then parts[0]
    else parts[0] + sep + Join(parts[1..], sep)
  }

  /**
    strings.Split: the pieces of `s` between the (non-overlapping, leftmost
    first) occurrences of `sep`. As in Go, splitting "" gives [""], so the
    number of pieces is one more than the number of separators found.
  */
  function Split(s: string, sep: string): (r: seq<string>)
    requires |sep| > 0
    ensures |r| > 0
    decreases |s|
  {
    if |sep| <= |s| && s[..|sep|] == sep then [""] + Split(s[|sep|..], sep)
    else if |s| == 0 then [""]
    else
      var t := Split(s[1..], sep);
      [[s[0]] + t[0]] + t[1..]
  }

  /** A prefix that cannot start a separator is glued to the first piece. */
  lemma {:induction false} SplitAfterPrefix(p: string, t: string, sep: string)
    requires |sep| > 0 && sep[0] !in p
    ensures Split(p + t, sep) == [p + Split(t, sep)[0]] + Split(t, sep)[1..]
    decreases |p|
  {
    if p == [] {
      var u := Split(t, sep);
      assert p + t == t;
      assert p + u[0] == u[0];
      assert [u[0]] + u[1..] == u;
    } else {
      SplitAfterPrefix(p[1..], t, sep);
      var s := p + t;
      assert s[0] == p[0] && s[0] != sep[0];
      assert s[1..] == p[1..] + t;
      assert [p[0]] + (p[1..] + Split(t, sep)[0]) == p + Split(t, sep)[0];
    }
  }

  /**
    How many separators Split cuts at: occurrences of `sep` found scanning
    from the left, each search resuming after the previous occurrence.
  */
  function Separators(s: string, sep: string): nat
    requires |sep| > 0
    decreases |s|
  {
    if |sep| <= |s| && s[..|sep|] == sep then 1 + Separators(s[|sep|..], sep)
    else if |s| == 0 then 0
    else Separators(s[1..], sep)
  }

  /** Split gives one piece more than the separators it cuts at. */
  lemma {:induction false} SplitCount(s: string, sep: string)
    requires |sep| > 0
    ensures |Split(s, sep)| == Separators(s, sep) + 1
    decreases |s|
  {
    if |sep| <= |s| && s[..|sep|] == sep {
      SplitCount(s[|sep|..], sep);
    } else if |s| > 0 {
      SplitCount(s[1..], sep);
    }
  }

  /** A separator at the front splits off an empty first piece. */
  lemma SplitAtSeparator(t: string, sep: string)
    requires |sep| > 0
    ensures Split(sep + t, sep) == [""] + Split(t, sep)
  {
    assert (sep + t)[..|sep|] == sep;
    assert (sep + t)[|sep|..] == t;
  }

  /**
    A part free of the separator's first character, followed by the
    separator and then some text, splits into the part and that text's
    pieces.
  */
  lemma SplitPartThenRest(p: string, rest: string, sep: string)
    requires |sep| > 0 && sep[0] !in p
    ensures Split(p + (sep + rest), sep) == [p] + Split(rest, sep)
  {
    SplitAtSeparator(rest, sep);
    SplitAfterPrefix(p, sep + rest, sep);
    assert p + "" == p;
  }

  /** A part free of the separator's first character is split into itself. */
  lemma SplitSingle(p: string, sep: string)
    requires |sep| > 0 && sep[0] !in p
    ensures Split(p, sep) == [p]
  {
    SplitAfterPrefix(p, "", sep);
    assert p + "" == p;
  }

  /**
    Join and Split are inverse: splitting a join of at least one part gives
    the parts back, provided no part contains the separator's first
    character.
  */
  lemma {:induction false} SplitJoin(parts: seq<string>, sep: string)
    requires |sep| > 0 && |parts| > 0
    requires forall i :: 0 <= i < |parts| ==> sep[0] !in parts[i]
    ensures Split(Join(parts, sep), sep) == parts
    decreases |parts|
  {
    var p := parts[0];
    if |parts| == 1 {
      SplitSingle(p, sep);
    } else {
      var rest := Join(parts[1..], sep);
      SplitJoin(parts[1..], sep);
      SplitPartThenRest(p, rest, sep);
      assert Join(parts, sep) == p + (sep + rest);
      assert [p] + parts[1..] == parts;
    }
  }
}
