/** Character-level helpers on strings: counting a character, finding its
    first occurrence, splitting on a one-character separator (what
    JavaScript's `String.prototype.split` does with a one-character string
    separator), joining, and removing every occurrence of a character. */
module Text {

  /** A row of the preview table: its fields, in order. */
  type Row = seq<string>

  /** A parsed table: its rows, header first. */
  type Table = seq<Row>

  /** Number of occurrences of `c` in `s`. */
  function Count(s: string, c: char): (n: nat)
    ensures n <= |s|
    ensures n == 0 <==> c !in s
  {
    if s == [] then 0 else (if s[0] == c then 1 else 0) + Count(s[1..], c)
  }

  lemma {:induction false} CountAppend(a: string, b: string, c: char)
    ensures Count(a + b, c) == Count(a, c) + Count(b, c)
  {
    if a == [] {
      assert a + b == b;
    } else {
      assert (a + b)[1..] == a[1..] + b;
      CountAppend(a[1..], b, c);
    }
  }

  /** Position of the first occurrence of `c` in `s`. */
  function IndexOf(s: string, c: char): (k: nat)
    requires c in s
    ensures k < |s| && s[k] == c
    ensures forall j :: 0 <= j < k ==> s[j] != c
  {
    if s[0] == c then 0 else IndexOf(s[1..], c) + 1
  }

  /** The first occurrence is unique: any position holding `c` with no `c`
      before it is the one IndexOf finds. */
  lemma IndexOfUnique(s: string, c: char, k: nat)
    requires k < |s| && s[k] == c
    requires forall j :: 0 <= j < k ==> s[j] != c
    ensures IndexOf(s, c) == k
  {
  }

  /** The pieces of `s` between occurrences of `sep`: JavaScript's
      `s.split(sep)` for a one-character separator. There is always at least
      one piece. */
  function Split(s: string, sep: char): (pieces: seq<string>)
    ensures |pieces| >= 1
    decreases |s|
  {
    if sep !in s then [s]
    else
      var k := IndexOf(s, sep);
      [s[..k]] + Split(s[k + 1..], sep)
  }

  /** The pieces glued back together with `sep` between neighbours. */
  function Join(pieces: seq<string>, sep: char): string
  {
    if |pieces| == 0 then []
    else if |pieces| == 1 then pieces[0]
    else pieces[0] + [sep] + Join(pieces[1..], sep)
  }

  /** Joining the pieces of a split gives back the original string. */
  lemma {:induction false} JoinSplit(s: string, sep: char)
    ensures Join(Split(s, sep), sep) == s
    decreases |s|
  {
    if sep in s {
      var k := IndexOf(s, sep);
      var rest := Split(s[k + 1..], sep);
      JoinSplit(s[k + 1..], sep);
      assert Split(s, sep) == [s[..k]] + rest;
      assert s == s[..k] + [sep] + s[k + 1..];
    }
  }

  /** Splitting a join of separator-free pieces gives back the pieces. */
  lemma {:induction false} SplitJoin(pieces: seq<string>, sep: char)
    requires |pieces| >= 1
    requires forall k :: 0 <= k < |pieces| ==> sep !in pieces[k]
    ensures Split(Join(pieces, sep), sep) == pieces
  {
    if |pieces| > 1 {
      var head, tail := pieces[0], Join(pieces[1..], sep);
      var s := head + [sep] + tail;
      assert sep !in head;
      assert s[|head|] == sep;
      assert s[..|head|] == head;
      SplitAt(s, sep, |head|);
      assert s[|head| + 1..] == tail;
      SplitJoin(pieces[1..], sep);
      assert pieces == [head] + pieces[1..];
    }
  }

  /** A string splits into one more piece than it has separators. */
  lemma {:induction false} SplitLength(s: string, sep: char)
    ensures |Split(s, sep)| == Count(s, sep) + 1
    decreases |s|
  {
    if sep in s {
      var k := IndexOf(s, sep);
      assert s == s[..k] + ([sep] + s[k + 1..]);
      CountAppend(s[..k], [sep] + s[k + 1..], sep);
      CountAppend([sep], s[k + 1..], sep);
      SplitLength(s[k + 1..], sep);
    }
  }

  /** The empty string is the only string that splits into a single empty
      piece. */
  lemma SplitEmpty(s: string, sep: char)
    ensures Split(s, sep) == [[]] <==> s == []
  {
    JoinSplit(s, sep);
  }

  /** No piece of a split holds the separator. */
  lemma {:induction false} SplitPiecesFree(s: string, sep: char, k: nat)
    requires k < |Split(s, sep)|
    ensures sep !in Split(s, sep)[k]
    decreases |s|
  {
    if sep in s {
      var j := IndexOf(s, sep);
      if k > 0 {
        SplitPiecesFree(s[j + 1..], sep, k - 1);
      }
    }
  }

  /** Splitting starts with the text before the first separator and goes on
      with the split of the text after it. */
  lemma SplitAt(s: string, sep: char, k: nat)
    requires k < |s| && s[k] == sep
    requires forall j :: 0 <= j < k ==> s[j] != sep
    ensures Split(s, sep) == [s[..k]] + Split(s[k + 1..], sep)
  {
    IndexOfUnique(s, sep, k);
  }

  /** Appending one character to the input either extends the last piece or,
      when it is the separator, starts a new empty piece. */
  lemma {:induction false} SplitSnoc(s: string, x: char, sep: char)
    ensures var p := Split(s, sep);
            var q := Split(s + [x], sep);
            if x == sep then q == p + [[]]
            else q == p[..|p| - 1] + [p[|p| - 1] + [x]]
    decreases |s|
  {
    var t := s + [x];
    var p := Split(s, sep);
    if sep in s {
      var k := IndexOf(s, sep);
      assert t[k] == sep;
      SplitAt(t, sep, k);
      assert t[..k] == s[..k];
      assert t[k + 1..] == s[k + 1..] + [x];
      SplitSnoc(s[k + 1..], x, sep);
      ConsExtend(s[..k], Split(s[k + 1..], sep), Split(s[k + 1..] + [x], sep), x, x == sep);
    } else if x == sep {
      assert t[|s|] == sep;
      SplitAt(t, sep, |s|);
      assert t[..|s|] == s;
      assert t[|s| + 1..] == [];
      assert Split(t, sep) == [s] + [[]];
    } else {
      assert sep !in t;
      assert Split(t, sep) == [t];
      assert p == [s];
      assert p[..0] == [];
    }
  }

  /** Putting the same first piece in front keeps the relation between two
      splits that `SplitSnoc` states. */
  lemma ConsExtend<T>(h: seq<T>, p: seq<seq<T>>, q: seq<seq<T>>, y: T, isSep: bool)
    requires |p| >= 1
    requires isSep ==> q == p + [[]]
    requires !isSep ==> q == p[..|p| - 1] + [p[|p| - 1] + [y]]
    ensures isSep ==> [h] + q == ([h] + p) + [[]]
    ensures !isSep ==> [h] + q == ([h] + p)[..|p|] + [([h] + p)[|p|] + [y]]
  {
    if !isSep {
      assert ([h] + p)[..|p|] == [h] + p[..|p| - 1];
    }
  }

  /** `s` with every occurrence of `c` dropped. */
  function Remove(s: string, c: char): (r: string)
    ensures c !in r
    ensures |r| == |s| - Count(s, c)
  {
    if s == [] then [] else (if s[0] == c then [] else [s[0]]) + Remove(s[1..], c)
  }

  lemma {:induction false} RemoveSnoc(s: string, x: char, c: char)
    ensures Remove(s + [x], c) == Remove(s, c) + (if x == c then [] else [x])
  {
    if s == [] {
      assert Remove([x], c) == (if x == c then [] else [x]) + Remove([], c);
    } else {
      assert (s + [x])[1..] == s[1..] + [x];
      assert (s + [x])[0] == s[0];
      RemoveSnoc(s[1..], x, c);
    }
  }
}
