/** String operations the client applies: `toLowerCase`, `toUpperCase`,
    `includes`, and `split(" ")`. A string is a sequence of code points,
    and case mapping covers ASCII letters only. */
module Text {

  predicate IsAsciiUpper(c: char)
  {
    'A' <= c <= 'Z'
  }

  predicate IsAsciiLower(c: char)
  {
    'a' <= c <= 'z'
  }

  function LowerChar(c: char): char
  {
    if IsAsciiUpper(c) then (c as int + 32) as char else c
  }

  function UpperChar(c: char): char
  {
    if IsAsciiLower(c) then (c as int - 32) as char else c
  }

  /** `toLowerCase`, on ASCII letters: the same length, no capital left,
      every other character kept, and each capital replaced by the small
      letter whose capital it is. */
  function Lower(s: string): (r: string)
    ensures |r| == |s|
    ensures forall i :: 0 <= i < |s| ==> !IsAsciiUpper(r[i])
    ensures forall i :: 0 <= i < |s| && !IsAsciiUpper(s[i]) ==> r[i] == s[i]
    ensures forall i :: 0 <= i < |s| && IsAsciiUpper(s[i]) ==> IsAsciiLower(r[i]) && UpperChar(r[i]) == s[i]
  {
    seq(|s|, i requires 0 <= i < |s| => LowerChar(s[i]))
  }

  /** `toUpperCase`, on ASCII letters: the same length, no small letter
      left, every other character kept, and each small letter replaced by
      the capital whose small letter it is. */
  function Upper(s: string): (r: string)
    ensures |r| == |s|
    ensures forall i :: 0 <= i < |s| ==> !IsAsciiLower(r[i])
    ensures forall i :: 0 <= i < |s| && !IsAsciiLower(s[i]) ==> r[i] == s[i]
    ensures forall i :: 0 <= i < |s| && IsAsciiLower(s[i]) ==> IsAsciiUpper(r[i]) && LowerChar(r[i]) == s[i]
  {
    seq(|s|, i requires 0 <= i < |s| => UpperChar(s[i]))
  }

  /** Lower-casing twice is lower-casing once, and lower-casing forgets
      whatever case the text had: a search term and its capitalised form
      find the same things. */
  lemma LowerForgetsCase(s: string)
    ensures Lower(Lower(s)) == Lower(s)
    ensures Lower(Upper(s)) == Lower(s)
  {
    assert forall i :: 0 <= i < |s| ==> Lower(Upper(s))[i] == Lower(s)[i];
  }

  /** `t` occurs in `s` starting at index `i`. */
  predicate OccursAt(s: string, t: string, i: int)
  {
    0 <= i && i + |t| <= |s| && s[i..i + |t|] == t
  }

  /** JavaScript `s.includes(t)`. */
  function Contains(s: string, t: string): (r: bool)
    ensures r <==> exists i :: OccursAt(s, t, i)
    decreases |s|
  {
    if |t| > |s| then false
    else if s[..|t|] == t then
      assert OccursAt(s, t, 0);
      true
    else
      var r := Contains(s[1..], t);
      assert forall i :: OccursAt(s[1..], t, i) ==> OccursAt(s, t, i + 1) by {
        forall i | OccursAt(s[1..], t, i) ensures OccursAt(s, t, i + 1) {
          assert s[1..][i..i + |t|] == s[i + 1..i + 1 + |t|];
        }
      }
      assert forall i :: OccursAt(s, t, i) ==> i == 0 || OccursAt(s[1..], t, i - 1) by {
        forall i | OccursAt(s, t, i) && i != 0 ensures OccursAt(s[1..], t, i - 1) {
          assert s[1..][i - 1..i - 1 + |t|] == s[i..i + |t|];
        }
      }
      r
  }

  /** A character that appears nowhere in `s` is not included in it. */
  lemma NotContainsChar(s: string, c: char)
    requires forall i :: 0 <= i < |s| ==> s[i] != c
    ensures !Contains(s, [c])
  {
    forall i | 0 <= i < |s| ensures !OccursAt(s, [c], i) {
      assert s[i..i + 1][0] == s[i];
    }
  }

  /** Case-insensitive `includes`, as every search box of the client does it:
      `field.toLowerCase().includes(term.toLowerCase())`. */
  predicate Mentions(field: string, term: string)
  {
    Contains(Lower(field), Lower(term))
  }

  lemma MentionsEmpty(field: string)
    ensures Mentions(field, "")
  {
    assert OccursAt(Lower(field), Lower(""), 0);
  }

  /** JavaScript `s.split(" ")`: the pieces between single spaces;
      always at least one piece, possibly empty. */
  function SplitOnSpace(s: string): (pieces: seq<string>)
    ensures |pieces| >= 1
  {
    if |s| == 0 then [""]
    else if s[0] == ' ' then [""] + SplitOnSpace(s[1..])
    else
      var rest := SplitOnSpace(s[1..]);
      [[s[0]] + rest[0]] + rest[1..]
  }

  /** `pieces.map(n => n[0]).join("")`: an empty piece contributes nothing,
      because `""[0]` is undefined and `join` writes undefined as "". */
  function Heads(pieces: seq<string>): string
  {
    if |pieces| == 0 then ""
    else (if |pieces[0]| == 0 then "" else [pieces[0][0]]) + Heads(pieces[1..])
  }

  /** The characters of `s` that start a word: not a space, and first in `s`
      or right after a space. `atStart` says the previous character was a
      space (or there was none). */
  function WordStarts(s: string, atStart: bool): string
  {
    if |s| == 0 then ""
    else (if atStart && s[0] != ' ' then [s[0]] else "") + WordStarts(s[1..], s[0] == ' ')
  }

  lemma {:induction false} HeadsAppend(a: seq<string>, b: seq<string>)
    ensures Heads(a + b) == Heads(a) + Heads(b)
  {
    if |a| > 0 {
      assert (a + b)[1..] == a[1..] + b;
      HeadsAppend(a[1..], b);
    } else {
      assert a + b == b;
    }
  }

  /** The first letters of the space-separated pieces are exactly the word
      starts of the string, so splitting can be reasoned about character by
      character. The second conclusion covers the piece already begun. */
  lemma {:induction false} HeadsOfSplit(s: string)
    ensures Heads(SplitOnSpace(s)) == WordStarts(s, true)
    ensures Heads(SplitOnSpace(s)[1..]) == WordStarts(s, false)
  {
    if |s| > 0 {
      HeadsOfSplit(s[1..]);
      var rest := SplitOnSpace(s[1..]);
      if s[0] == ' ' {
        assert SplitOnSpace(s) == [""] + rest;
        HeadsAppend([""], rest);
      } else {
        var pieces := [[s[0]] + rest[0]] + rest[1..];
        assert SplitOnSpace(s) == pieces;
        assert pieces[1..] == rest[1..];
        HeadsAppend([[s[0]] + rest[0]], rest[1..]);
      }
    }
  }
}
