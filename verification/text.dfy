/** The string operations the tracker applies to the text the user types:
    `str.split(",")`, `str.join`, `str.strip()` and `str.upper()`. */
module Text {

  /** The characters Python's `str.isspace()` accepts; `str.strip()` without an argument
      removes exactly these from both ends. */
  predicate IsSpace(c: char) {
    || ('\t' <= c <= '\r')
    || ('\U{1c}' <= c <= '\U{1f}')
    || c == ' '
    || c == '\U{85}'
    || c == '\U{a0}'
    || c == '\U{1680}'
    || ('\U{2000}' <= c <= '\U{200a}')
    || c == '\U{2028}'
    || c == '\U{2029}'
    || c == '\U{202f}'
    || c == '\U{205f}'
    || c == '\U{3000}'
  }

  /** True when `s` neither starts nor ends with whitespace (and is not empty). */
  predicate Trimmed(s: string) {
    s != [] && !IsSpace(s[0]) && !IsSpace(s[|s| - 1])
  }

  /** The position of the first character at or after `i` that is not whitespace, or
      `|s|` when there is none: where `str.strip()` starts keeping. */
  function SkipSpaces(s: string, i: nat): (j: nat)
    requires i <= |s|
    ensures i <= j <= |s|
    ensures forall k :: i <= k < j ==> IsSpace(s[k])
    ensures j < |s| ==> !IsSpace(s[j])
    decreases |s| - i
  {
    if i < |s| && IsSpace(s[i]) then SkipSpaces(s, i + 1) else i
  }

  /** The position just after the last character before `j` that is not whitespace, or 0
      when there is none: where `str.strip()` stops keeping. */
  function TrimEnd(s: string, j: nat): (e: nat)
    requires j <= |s|
    ensures e <= j
    ensures forall k :: e <= k < j ==> IsSpace(s[k])
    ensures e > 0 ==> !IsSpace(s[e - 1])
  {
    if j > 0 && IsSpace(s[j - 1]) then TrimEnd(s, j - 1) else j
  }

  /** Everything before position `a` and from position `b` on is whitespace. */
  predicate Margins(s: string, a: nat, b: nat) {
    a <= b <= |s|
    && (forall k :: 0 <= k < a ==> IsSpace(s[k]))
    && (forall k :: b <= k < |s| ==> IsSpace(s[k]))
  }

  /** Python's `s.strip()`: what is left is either empty (all of `s` was whitespace) or
      trimmed at both ends. */
  function Strip(s: string): (r: string)
    ensures |r| <= |s|
    ensures r == [] <==> forall k :: 0 <= k < |s| ==> IsSpace(s[k])
    ensures r != [] ==> Trimmed(r)
  {
    var a, b := SkipSpaces(s, 0), TrimEnd(s, |s|);
    if a < b then s[a..b] else []
  }

  /** Stripping keeps a middle slice of `s` and cuts off only whitespace at either end;
      with `Strip`'s own contract (the rest is trimmed), no more could have been cut. */
  lemma StripCut(s: string)
    ensures exists a: nat, b: nat :: Margins(s, a, b) && Strip(s) == s[a..b]
  {
    var a, b := SkipSpaces(s, 0), TrimEnd(s, |s|);
    if a < b {
      assert Margins(s, a, b) && Strip(s) == s[a..b];
    } else {
      assert Margins(s, a, a) && Strip(s) == s[a..a];
    }
  }

  /** Two pieces followed by two commas split into the two pieces and two empty ones. */
  lemma SplitTwoThenBlanks(p: string, q: string)
    requires ',' !in p && ',' !in q
    ensures Split(p + "," + (q + "," + ",")) == [p, q, [], []]
  {
    assert Split(",") == [[], []] by {
      assert [','][1..] == [];
    }
    SplitPrefix(q, ",");
    SplitPrefix(p, q + "," + ",");
  }

  /** Leading whitespace before a character is cut off. */
  lemma StripLeading(sp: char, c: char)
    requires IsSpace(sp) && !IsSpace(c)
    ensures Strip([sp, c]) == [c]
  {
    var s := [sp, c];
    assert SkipSpaces(s, 1) == 1;
    assert SkipSpaces(s, 0) == 1;
    assert TrimEnd(s, 2) == 2;
    assert s[1..2] == [c];
  }

  /** Whitespace on both sides of a character is cut off. */
  lemma StripAround(sp: char, c: char)
    requires IsSpace(sp) && !IsSpace(c)
    ensures Strip([sp, c, sp]) == [c]
  {
    var s := [sp, c, sp];
    assert SkipSpaces(s, 1) == 1;
    assert SkipSpaces(s, 0) == 1;
    assert TrimEnd(s, 2) == 2;
    assert TrimEnd(s, 3) == 2;
    assert s[1..2] == [c];
  }

  /** Stripping only removes characters: every character left was in the input. */
  lemma StripKeeps(s: string)
    ensures forall c :: c in Strip(s) ==> c in s
  {
    var a, b := SkipSpaces(s, 0), TrimEnd(s, |s|);
    if a < b {
      var r := s[a..b];
      assert Strip(s) == r;
      forall c | c in r ensures c in s {
        var k :| 0 <= k < |r| && r[k] == c;
        assert s[a + k] == c;
      }
    }
  }

  /** Stripping a string that has no whitespace at its ends returns it unchanged. */
  lemma StripTrimmed(s: string)
    requires Trimmed(s)
    ensures Strip(s) == s
  {
    assert SkipSpaces(s, 0) == 0;
    assert TrimEnd(s, |s|) == |s|;
    assert s[0..|s|] == s;
  }

  /** Python's `str.upper()` on one character, restricted to ASCII letters. */
  function UpperChar(c: char): char {
    if 'a' <= c <= 'z' then (c as int - 'a' as int + 'A' as int) as char else c
  }

  /** Python's `str.upper()`, restricted to ASCII letters: keeps the length and maps
      each character on its own. */
  function Upper(s: string): (r: string)
    ensures |r| == |s|
    ensures forall k :: 0 <= k < |s| ==> r[k] == UpperChar(s[k])
  {
    seq(|s|, k requires 0 <= k < |s| => UpperChar(s[k]))
  }

  /** Upper-casing leaves no lower-case letter, keeps whitespace at the ends, and does
      not turn any other character into a comma. */
  lemma UpperFacts(s: string)
    ensures IsUpper(Upper(s))
    ensures Trimmed(s) ==> Trimmed(Upper(s))
    ensures ',' !in s ==> ',' !in Upper(s)
  {
    var u := Upper(s);
    if s != [] {
      assert u[0] == UpperChar(s[0]);
      assert u[|u| - 1] == UpperChar(s[|s| - 1]);
    }
    forall k | 0 <= k < |s| ensures s[k] != ',' ==> u[k] != ',' {
      assert u[k] == UpperChar(s[k]);
    }
  }

  /** No ASCII lower-case letter occurs in `s`, so `Upper` leaves it as it is. */
  predicate IsUpper(s: string) {
    forall k :: 0 <= k < |s| ==> !('a' <= s[k] <= 'z')
  }

  lemma UpperOfUpper(s: string)
    requires IsUpper(s)
    ensures Upper(s) == s
  {
  }

  /** Python's `",".join(parts)`: the parts in order with a comma between neighbours, so
      the result starts with the first part. */
  function Join(parts: seq<string>): (r: string)
    ensures parts != [] ==> parts[0] <= r
  {
    if parts == [] then ""
    else if |parts| == 1 then parts[0]
    else parts[0] + "," + Join(parts[1..])
  }

  /** Python's `s.split(",")`: never empty, no piece holds a comma, and joining the pieces
      with commas gives `s` back. */
  function Split(s: string): (r: seq<string>)
    ensures |r| >= 1
    ensures forall i :: 0 <= i < |r| ==> ',' !in r[i]
    ensures Join(r) == s
  {
    if s == [] then [""]
    else if s[0] == ',' then
      var rest := Split(s[1..]);
      assert [s[0]] + s[1..] == s;
      [""] + rest
    else
      var rest := Split(s[1..]);
      var r := [[s[0]] + rest[0]] + rest[1..];
      assert r[1..] == rest[1..];
      assert [s[0]] + s[1..] == s;
      r
  }

  /** Splitting at commas undoes joining with commas, as long as no part holds a comma. */
  lemma {:induction false} SplitJoin(parts: seq<string>)
    requires |parts| >= 1
    requires forall i :: 0 <= i < |parts| ==> ',' !in parts[i]
    ensures Split(Join(parts)) == parts
  {
    if |parts| == 1 {
      SplitNoComma(parts[0]);
    } else {
      SplitJoin(parts[1..]);
      SplitPrefix(parts[0], Join(parts[1..]));
      assert [parts[0]] + parts[1..] == parts;
    }
  }

  /** A string without commas splits into itself alone. */
  lemma {:induction false} SplitNoComma(s: string)
    requires ',' !in s
    ensures Split(s) == [s]
  {
    if s != [] {
      assert ',' !in s[1..] by {
        forall k | 0 <= k < |s[1..]| ensures s[1..][k] != ',' { assert s[1..][k] == s[k + 1]; }
      }
      SplitNoComma(s[1..]);
      assert [s[0]] + s[1..] == s;
    }
  }

  /** A comma-free prefix followed by a comma becomes the first piece. */
  lemma {:induction false} SplitPrefix(p: string, rest: string)
    requires ',' !in p
    ensures Split(p + "," + rest) == [p] + Split(rest)
  {
    if p == [] {
      assert p + "," + rest == [','] + rest;
      assert (p + "," + rest)[1..] == rest;
    } else {
      var s := p + "," + rest;
      assert s[0] == p[0];
      assert s[1..] == p[1..] + "," + rest;
      assert ',' !in p[1..] by {
        forall k | 0 <= k < |p[1..]| ensures p[1..][k] != ',' { assert p[1..][k] == p[k + 1]; }
      }
      SplitPrefix(p[1..], rest);
      assert [p[0]] + p[1..] == p;
    }
  }
}
