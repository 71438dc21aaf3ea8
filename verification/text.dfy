/** String helpers the handlers use: `toLowerCase`, `split(" ")`,
    `startsWith` and `length`, on strings as sequences of characters. Lowercasing is
    modelled on ASCII only: `A`..`Z` become `a`..`z`, every other character
    is left as it is. */
module Text {

  predicate IsUpper(c: char) {
    'A' <= c <= 'Z'
  }

  function LowerChar(c: char): char {
    if IsUpper(c) then (c as int - 'A' as int + 'a' as int) as char else c
  }

  /** `s.toLowerCase()`: same length, no capital letter left, and equal to `s`
      when case is ignored. */
  function Lower(s: string): (r: string)
    ensures |r| == |s|
    ensures forall i :: 0 <= i < |r| ==> !IsUpper(r[i]) && LowerChar(r[i]) == LowerChar(s[i])
  {
    seq(|s|, i requires 0 <= i < |s| => LowerChar(s[i]))
  }

  /** `ts.map(t => t.toLowerCase())` */
  function LowerAll(ts: seq<string>): seq<string> {
    seq(|ts|, k requires 0 <= k < |ts| => Lower(ts[k]))
  }

  /** Lowercasing twice is lowercasing once. */
  lemma LowerIdempotent(s: string)
    ensures Lower(Lower(s)) == Lower(s)
  {
  }

  /** A string holding a capital letter is nobody's lowercase form. */
  lemma {:induction false} UpperIsNoLowerForm(q: string, t: string, i: int)
    requires 0 <= i < |q| && IsUpper(q[i])
    ensures Lower(t) != q
  {
    if |t| == |q| {
      assert !IsUpper(Lower(t)[i]);
    }
  }

  /** The UTF-16 code units a character takes: two for a character beyond
      U+FFFF, which JavaScript stores as a surrogate pair, one otherwise. */
  function Utf16Units(c: char): nat {
    if c as int > 0xFFFF then 2 else 1
  }

  /** `s.length` in JavaScript, which counts UTF-16 code units rather than
      characters: between one and two units per character, and exactly one
      per character when no character lies beyond U+FFFF. */
  function Utf16Length(s: string): (n: nat)
    ensures |s| <= n <= 2 * |s|
    ensures n == |s| <==> forall i :: 0 <= i < |s| ==> s[i] as int <= 0xFFFF
    decreases |s|
  {
    if s == [] then 0
    else
      var n := Utf16Units(s[0]) + Utf16Length(s[1..]);
      assert forall i :: 1 <= i < |s| ==> s[i] == s[1..][i - 1];
      n
  }

  /** A single character is one code unit, or two beyond U+FFFF. */
  lemma Utf16LengthChar(c: char)
    ensures Utf16Length([c]) == if c as int > 0xFFFF then 2 else 1
  {
    assert [c][1..] == [];
  }

  /** The length of a concatenation is the sum of the lengths; with
      `Utf16LengthChar` this fixes `Utf16Length` on every string. */
  lemma {:induction false} Utf16LengthAppend(a: string, b: string)
    ensures Utf16Length(a + b) == Utf16Length(a) + Utf16Length(b)
    decreases |a|
  {
    if a == [] {
      assert a + b == b;
    } else {
      assert (a + b)[0] == a[0] && (a + b)[1..] == a[1..] + b;
      Utf16LengthAppend(a[1..], b);
    }
  }

  predicate StartsWith(s: string, prefix: string) {
    |prefix| <= |s| && s[..|prefix|] == prefix
  }

  /** `s.split(sep)` for a one-character separator: the pieces between
      separators, empty pieces included, so that "" gives [""] and a
      leading, trailing or doubled separator gives an empty piece. */
  function Split(s: string, sep: char): (r: seq<string>)
    ensures |r| >= 1
    decreases |s|
  {
    if s == [] then [[]]
    else
      var rest := Split(s[1..], sep);
      if s[0] == sep then [[]] + rest
      else [[s[0]] + rest[0]] + rest[1..]
  }

  /** No piece holds the separator. */
  lemma {:induction false} SplitPiecesLackSeparator(s: string, sep: char)
    ensures forall k :: 0 <= k < |Split(s, sep)| ==> sep !in Split(s, sep)[k]
    decreases |s|
  {
    if s != [] {
      SplitPiecesLackSeparator(s[1..], sep);
      var rest := Split(s[1..], sep);
      if s[0] != sep {
        assert forall k :: 0 < k < |Split(s, sep)| ==> Split(s, sep)[k] == rest[k];
      }
    }
  }

  /** `parts.join(sep)`, the inverse of `Split`. */
  function Join(parts: seq<string>, sep: char): string
    requires |parts| >= 1
    decreases |parts|
  {
    if |parts| == 1 then parts[0] else parts[0] + [sep] + Join(parts[1..], sep)
  }

  /** Joining after a leading empty piece puts a separator in front. */
  lemma JoinEmptyFirst(parts: seq<string>, sep: char)
    requires |parts| >= 1
    ensures Join([[]] + parts, sep) == [sep] + Join(parts, sep)
  {
    assert ([[]] + parts)[1..] == parts;
  }

  /** Joining after gluing a character onto the first piece puts that
      character in front. */
  lemma {:induction false} JoinGlue(c: char, parts: seq<string>, sep: char)
    requires |parts| >= 1
    ensures Join([[c] + parts[0]] + parts[1..], sep) == [c] + Join(parts, sep)
  {
    var r := [[c] + parts[0]] + parts[1..];
    if |parts| > 1 {
      assert r[1..] == parts[1..];
    }
  }

  /** Splitting loses nothing: joining the pieces gives the string back. */
  lemma {:induction false} JoinSplit(s: string, sep: char)
    ensures Join(Split(s, sep), sep) == s
    decreases |s|
  {
    if s != [] {
      JoinSplit(s[1..], sep);
      if s[0] == sep {
        JoinEmptyFirst(Split(s[1..], sep), sep);
      } else {
        JoinGlue(s[0], Split(s[1..], sep), sep);
      }
      assert s == [s[0]] + s[1..];
    }
  }

  /** A string without the separator is a single piece. */
  lemma {:induction false} SplitWithoutSeparator(s: string, sep: char)
    requires sep !in s
    ensures Split(s, sep) == [s]
    decreases |s|
  {
    if s != [] {
      SplitWithoutSeparator(s[1..], sep);
      assert s == [s[0]] + s[1..];
    }
  }

  /** How `Split` treats the first character of a string. */
  lemma SplitCons(c: char, t: string, sep: char)
    ensures Split([c] + t, sep) ==
      if c == sep then [[]] + Split(t, sep)
      else [[c] + Split(t, sep)[0]] + Split(t, sep)[1..]
  {
    var s := [c] + t;
    assert s[0] == c && s[1..] == t;
  }

  /** Gluing a character onto the first piece commutes with appending more
      pieces. */
  lemma GlueFirst(c: char, ra: seq<string>, rb: seq<string>)
    requires |ra| >= 1
    ensures [[c] + (ra + rb)[0]] + (ra + rb)[1..] == ([[c] + ra[0]] + ra[1..]) + rb
  {
    assert (ra + rb)[0] == ra[0] && (ra + rb)[1..] == ra[1..] + rb;
  }

  /** A leading empty piece commutes with appending more pieces. */
  lemma SeparatorFirst(ra: seq<string>, rb: seq<string>)
    ensures [[]] + (ra + rb) == ([[]] + ra) + rb
  {
  }

  /** The inductive step of `SplitAtSeparator` when the character put in
      front of the cut is itself a separator. */
  lemma SplitAtSeparatorStepSep(a: string, sep: char, b: string)
    requires Split(a + [sep] + b, sep) == Split(a, sep) + Split(b, sep)
    ensures Split([sep] + a + [sep] + b, sep) == Split([sep] + a, sep) + Split(b, sep)
  {
    assert [sep] + a + [sep] + b == [sep] + (a + [sep] + b);
    SplitCons(sep, a + [sep] + b, sep);
    SplitCons(sep, a, sep);
    SeparatorFirst(Split(a, sep), Split(b, sep));
  }

  /** The inductive step of `SplitAtSeparator` when the character put in
      front of the cut is not a separator. */
  lemma SplitAtSeparatorStepOther(c: char, a: string, sep: char, b: string)
    requires c != sep
    requires Split(a + [sep] + b, sep) == Split(a, sep) + Split(b, sep)
    ensures Split([c] + a + [sep] + b, sep) == Split([c] + a, sep) + Split(b, sep)
  {
    assert [c] + a + [sep] + b == [c] + (a + [sep] + b);
    SplitCons(c, a + [sep] + b, sep);
    SplitCons(c, a, sep);
    GlueFirst(c, Split(a, sep), Split(b, sep));
  }

  /** A separator cuts the string in two: the pieces of `a + [sep] + b`
      are those of `a` followed by those of `b`. */
  lemma {:induction false} SplitAtSeparator(a: string, sep: char, b: string)
    ensures Split(a + [sep] + b, sep) == Split(a, sep) + Split(b, sep)
    decreases |a|
  {
    if a == [] {
      assert a + [sep] + b == [sep] + b;
      SplitCons(sep, b, sep);
    } else {
      SplitAtSeparator(a[1..], sep, b);
      if a[0] == sep {
        SplitAtSeparatorStepSep(a[1..], sep, b);
      } else {
        SplitAtSeparatorStepOther(a[0], a[1..], sep, b);
      }
      assert a == [a[0]] + a[1..];
    }
  }
}
