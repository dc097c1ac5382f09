/** String operations of JavaScript's `String.prototype` used by the record
    store: `split` on one character, `join`, `toLowerCase` and `includes`. */
module Text {

  /** `s.split(d)` for a one-character separator `d`: the maximal
      separator-free pieces, including empty ones at the ends. */
  function Split(s: string, d: char): (parts: seq<string>)
    ensures |parts| >= 1
    ensures forall k :: 0 <= k < |parts| ==> d !in parts[k]
  {
    if |s| == 0 then [""]
    else
      var rest := Split(s[1..], d);
      if s[0] == d then [""] + rest
      else [[s[0]] + rest[0]] + rest[1..]
  }

  /** `parts.join(d)`: the pieces with one separator between neighbours. */
  function Join(parts: seq<string>, d: char): (s: string)
  {
    if |parts| == 0 then ""
    else if |parts| == 1 then parts[0]
    else parts[0] + [d] + Join(parts[1..], d)
  }

  /** A string without the separator is a single piece. */
  lemma {:induction false} SplitSingle(s: string, d: char)
    requires d !in s
    ensures Split(s, d) == [s]
  {
    if |s| > 0 {
      assert d !in s[1..] by {
        forall k | 0 <= k < |s[1..]| ensures s[1..][k] != d {
          assert s[1..][k] == s[k + 1];
        }
      }
      SplitSingle(s[1..], d);
      assert [s[0]] + s[1..] == s;
    }
  }

  /** The pieces `Split` builds from a first character `c` and the pieces
      `rest` of the remainder. */
  function ConsPieces(c: char, d: char, rest: seq<string>): seq<string>
    requires |rest| >= 1
  {
    if c == d then [""] + rest else [[c] + rest[0]] + rest[1..]
  }

  /** Pieces appended after the first piece are untouched by `ConsPieces`. */
  lemma ConsPiecesAppend(c: char, d: char, ra: seq<string>, rb: seq<string>)
    requires |ra| >= 1
    ensures ConsPieces(c, d, ra + rb) == ConsPieces(c, d, ra) + rb
  {
    if c != d {
      assert (ra + rb)[1..] == ra[1..] + rb;
    }
  }

  /** The pieces of a string after its first character is put in front. */
  lemma SplitCons(c: char, t: string, d: char)
    ensures Split([c] + t, d) == ConsPieces(c, d, Split(t, d))
  {
    assert ([c] + t)[1..] == t;
  }

  /** Splitting distributes over a separator: the pieces of `a + [d] + b` are the
      pieces of `a` followed by the pieces of `b`. */
  lemma {:induction false} SplitAround(a: string, d: char, b: string)
    ensures Split(a + [d] + b, d) == Split(a, d) + Split(b, d)
  {
    if |a| == 0 {
      SplitCons(d, b, d);
      assert a + [d] + b == [d] + b;
    } else {
      var c, tail := a[0], a[1..];
      var m := tail + [d] + b;
      assert a + [d] + b == [c] + m by { assert a == [c] + tail; }
      calc {
        Split(a + [d] + b, d);
      ==
        Split([c] + m, d);
      == { SplitCons(c, m, d); }
        ConsPieces(c, d, Split(m, d));
      == { SplitAround(tail, d, b); }
        ConsPieces(c, d, Split(tail, d) + Split(b, d));
      == { ConsPiecesAppend(c, d, Split(tail, d), Split(b, d)); }
        ConsPieces(c, d, Split(tail, d)) + Split(b, d);
      == { SplitCons(c, tail, d); assert [c] + tail == a; }
        Split(a, d) + Split(b, d);
      }
    }
  }

  /** Joining the pieces of a split gives back the original text. */
  lemma {:induction false} JoinSplit(s: string, d: char)
    ensures Join(Split(s, d), d) == s
  {
    if |s| > 0 {
      var rest := Split(s[1..], d);
      JoinSplit(s[1..], d);
      if s[0] == d {
        assert Split(s, d)[1..] == rest;
        assert Join(Split(s, d), d) == "" + [d] + Join(rest, d);
        assert [s[0]] + s[1..] == s;
      } else {
        var parts := Split(s, d);
        if |rest| == 1 {
          assert Join(parts, d) == [s[0]] + rest[0];
          assert Join(rest, d) == rest[0];
        } else {
          assert parts[1..] == rest[1..];
          assert Join(parts, d) == [s[0]] + rest[0] + [d] + Join(rest[1..], d);
          assert Join(rest, d) == rest[0] + [d] + Join(rest[1..], d);
        }
        assert [s[0]] + s[1..] == s;
      }
    }
  }

  /** Splitting a join of separator-free pieces gives back the pieces. */
  lemma {:induction false} SplitJoin(parts: seq<string>, d: char)
    requires |parts| >= 1
    requires forall k :: 0 <= k < |parts| ==> d !in parts[k]
    ensures Split(Join(parts, d), d) == parts
  {
    if |parts| == 1 {
      SplitSingle(parts[0], d);
    } else {
      SplitJoin(parts[1..], d);
      SplitSingle(parts[0], d);
      SplitAround(parts[0], d, Join(parts[1..], d));
      assert [parts[0]] + parts[1..] == parts;
    }
  }

  /** A join of pieces free of `c`, with a separator other than `c`, is free of `c`. */
  lemma {:induction false} JoinAvoids(parts: seq<string>, d: char, c: char)
    requires c != d
    requires forall k :: 0 <= k < |parts| ==> c !in parts[k]
    ensures c !in Join(parts, d)
  {
    if |parts| > 1 {
      JoinAvoids(parts[1..], d, c);
    }
  }

  /** ASCII lower-casing of one character. */
  function LowerChar(c: char): (r: char)
  {
    if 'A' <= c <= 'Z' then (c as int - 'A' as int + 'a' as int) as char else c
  }

  /** `s.toLowerCase()`, restricted to the ASCII letters. */
  function Lower(s: string): (r: string)
    ensures |r| == |s|
    ensures forall i :: 0 <= i < |s| ==> r[i] == LowerChar(s[i])
    ensures forall i :: 0 <= i < |r| ==> !('A' <= r[i] <= 'Z')
  {
    seq(|s|, i requires 0 <= i < |s| => LowerChar(s[i]))
  }

  /** Lower-casing twice is lower-casing once. */
  lemma LowerIdempotent(s: string)
    ensures Lower(Lower(s)) == Lower(s)
  {
  }

  /** Two strings have the same lower-casing exactly when they agree up to
      the case of their ASCII letters. */
  lemma LowerEqualIffSameLetters(s: string, t: string)
    ensures Lower(s) == Lower(t) <==>
      |s| == |t| && forall i :: 0 <= i < |s| ==> LowerChar(s[i]) == LowerChar(t[i])
  {
    if |s| == |t| && forall i :: 0 <= i < |s| ==> LowerChar(s[i]) == LowerChar(t[i]) {
      assert forall i :: 0 <= i < |s| ==> Lower(s)[i] == Lower(t)[i];
    }
  }

  /** `needle` occurs in `hay` starting at index `i`. */
  predicate OccursAt(hay: string, needle: string, i: nat) {
    i + |needle| <= |hay| && hay[i..i + |needle|] == needle
  }

  /** `hay.includes(needle)`: whether `needle` occurs in `hay` at all. */
  function Includes(hay: string, needle: string): (r: bool)
    ensures r <==> exists i: nat :: OccursAt(hay, needle, i)
  {
    if |needle| > |hay| then false
    else if hay[..|needle|] == needle then
      assert OccursAt(hay, needle, 0);
      true
    else
      var r := Includes(hay[1..], needle);
      IncludesStep(hay, needle);
      r
  }

  /** An occurrence in `hay` is at index 0 or is an occurrence in `hay[1..]`. */
  lemma IncludesStep(hay: string, needle: string)
    requires |needle| <= |hay|
    requires hay[..|needle|] != needle
    ensures (exists i: nat :: OccursAt(hay, needle, i)) <==>
            (exists i: nat :: OccursAt(hay[1..], needle, i))
  {
    forall i: nat | OccursAt(hay, needle, i)
      ensures i > 0 && OccursAt(hay[1..], needle, i - 1)
    {
      assert i != 0;
      assert hay[1..][i - 1..i - 1 + |needle|] == hay[i..i + |needle|];
    }
    forall i: nat | OccursAt(hay[1..], needle, i)
      ensures OccursAt(hay, needle, i + 1)
    {
      assert hay[1..][i..i + |needle|] == hay[i + 1..i + 1 + |needle|];
    }
  }

  /** A needle whose first character does not occur in `hay` is not included in it. */
  lemma FirstCharAbsent(hay: string, needle: string)
    requires |needle| > 0 && needle[0] !in hay
    ensures !Includes(hay, needle)
  {
    forall i: nat | i + |needle| <= |hay| ensures !OccursAt(hay, needle, i) {
      assert hay[i] in hay;
      assert hay[i..i + |needle|][0] == hay[i];
    }
  }

  /** Every string includes the empty string. */
  lemma IncludesEmpty(hay: string)
    ensures Includes(hay, "")
  {
    assert OccursAt(hay, "", 0);
  }
}
