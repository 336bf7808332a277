/**
  Joining a list of fragments with a separator character (`[String]::join`)
  and its inverse, splitting a string at every occurrence of that character.
 */
module Words {

  /** `ws` joined with `sep` between consecutive elements. */
  function Join(ws: seq<string>, sep: char): string {
    if ws == [] then []
    else if |ws| == 1 then ws[0]
    else ws[0] + [sep] + Join(ws[1..], sep)
  }

  /** Index of the first `c` in `s`, or `|s|` when there is none. */
  function IndexOf(s: string, c: char): (k: nat)
    ensures k <= |s|
    ensures k < |s| ==> s[k] == c
    ensures forall i :: 0 <= i < k ==> s[i] != c
  {
    if s == [] then 0
    else if s[0] == c then 0
    else 1 + IndexOf(s[1..], c)
  }

  /** The pieces of `s` between occurrences of `sep`; never an empty list. */
  function Split(s: string, sep: char): (ws: seq<string>)
    ensures |ws| >= 1
    ensures forall i :: 0 <= i < |ws| ==> sep !in ws[i]
    decreases |s|
  {
    var k := IndexOf(s, sep);
    if k == |s| then [s]
    else [s[..k]] + Split(s[k + 1..], sep)
  }

  /** Splitting a joined list gives the list back when no element holds the separator. */
  lemma {:induction false} SplitJoin(ws: seq<string>, sep: char)
    requires |ws| >= 1
    requires forall i :: 0 <= i < |ws| ==> sep !in ws[i]
    ensures Split(Join(ws, sep), sep) == ws
    decreases |ws|
  {
    if |ws| > 1 {
      var w, rest := ws[0], Join(ws[1..], sep);
      assert sep !in w;
      SplitFirst(w, sep, rest);
      SplitJoin(ws[1..], sep);
    }
  }

  /** A separator-free piece followed by the separator splits off as the first piece. */
  lemma SplitFirst(w: string, sep: char, rest: string)
    requires sep !in w
    ensures Split(w + [sep] + rest, sep) == [w] + Split(rest, sep)
  {
    var s := w + [sep] + rest;
    assert forall i :: 0 <= i < |w| ==> s[i] == w[i] && w[i] != sep;
    assert s[|w|] == sep;
    assert IndexOf(s, sep) == |w|;
    assert s[..|w|] == w;
    assert s[|w| + 1..] == rest;
  }
}
