/**
 * String operations both runtimes rely on: `trim`/`strip`, the `/\s+/ -> " "`
 * rewrite, ASCII lower-casing, substring search and decimal rendering.
 */
module Text {
  import opened Base
  import opened Seqs

  /**
   * Whitespace as the `\s` class and `trim`/`strip` see it: space, tab,
   * line feed, vertical tab, form feed and carriage return.
   */
  predicate IsSpace(c: char) {
    c == ' ' || '\t' <= c <= '\r'
  }

  predicate AllSpace(s: string) {
    forall k :: 0 <= k < |s| ==> IsSpace(s[k])
  }

  function TrimStart(s: string): (r: string)
    ensures |r| <= |s| && r == s[|s| - |r|..]
    ensures r == [] || !IsSpace(r[0])
    ensures AllSpace(s[..|s| - |r|])
  {
    if s != [] && IsSpace(s[0]) then TrimStart(s[1..]) else s
  }

  /** Neither end is whitespace. */
  predicate Trimmed(s: string) {
    s == [] || (!IsSpace(s[0]) && !IsSpace(s[|s| - 1]))
  }

  /** The first position at or after `i` that is not whitespace, or `|s|`. */
  function SkipSpace(s: string, i: nat): (r: nat)
    requires i <= |s|
    ensures i <= r <= |s|
    ensures forall k :: i <= k < r ==> IsSpace(s[k])
    ensures r < |s| ==> !IsSpace(s[r])
    decreases |s| - i
  {
    if i < |s| && IsSpace(s[i]) then SkipSpace(s, i + 1) else i
  }

  /** The position just after the last non-whitespace character before `j`, but not below `lo`. */
  function SkipSpaceBack(s: string, lo: nat, j: nat): (r: nat)
    requires lo <= j <= |s|
    ensures lo <= r <= j
    ensures forall k :: r <= k < j ==> IsSpace(s[k])
    ensures r > lo ==> !IsSpace(s[r - 1])
    decreases j
  {
    if j > lo && IsSpace(s[j - 1]) then SkipSpaceBack(s, lo, j - 1) else j
  }

  /** Ruby's `rstrip`. */
  function TrimEnd(s: string): (r: string)
    ensures |r| <= |s| && r == s[..|r|]
    ensures r == [] || !IsSpace(r[|r| - 1])
    ensures AllSpace(s[|r|..])
  {
    var b := SkipSpaceBack(s, 0, |s|);
    assert forall k :: 0 <= k < |s| - b ==> s[b..][k] == s[b + k];
    s[..b]
  }

  /** How many leading whitespace characters `trim` removes. */
  function TrimOffset(s: string): nat {
    SkipSpace(s, 0)
  }

  /** JavaScript's `trim()` and Ruby's `strip`: the slice of `s` between leading and trailing whitespace. */
  function Trim(s: string): (r: string)
    ensures Trimmed(r)
    ensures TrimOffset(s) + |r| <= |s|
    ensures r == s[TrimOffset(s)..TrimOffset(s) + |r|]
    ensures AllSpace(s[..TrimOffset(s)]) && AllSpace(s[TrimOffset(s) + |r|..])
  {
    var a := SkipSpace(s, 0);
    var b := SkipSpaceBack(s, a, |s|);
    assert forall k :: 0 <= k < a ==> s[..a][k] == s[k];
    assert forall k :: 0 <= k < |s| - b ==> s[b..][k] == s[b + k];
    s[a..b]
  }

  lemma TrimTrimmed(s: string)
    requires Trimmed(s)
    ensures Trim(s) == s
  {
  }

  /** Every whitespace character is a plain space and no two whitespace characters are adjacent. */
  ghost predicate Collapsed(s: string) {
    && (forall i :: 0 <= i < |s| && IsSpace(s[i]) ==> s[i] == ' ')
    && (forall i, j :: 0 <= i < j < |s| && j == i + 1 ==> !IsSpace(s[i]) || !IsSpace(s[j]))
  }

  /** `gsub(/\s+/, " ")` / `replace(/\s+/g, " ")`: every maximal whitespace run becomes one space. */
  function Collapse(s: string): (r: string)
    ensures Collapsed(r)
    ensures |r| <= |s|
    ensures r == [] <==> s == []
    ensures r != [] ==> (IsSpace(r[0]) <==> IsSpace(s[0]))
    decreases |s|
  {
    if s == [] then []
    else if IsSpace(s[0]) then
      var rest := Collapse(TrimStart(s[1..]));
      CollapsedCons(' ', rest);
      " " + rest
    else
      var rest := Collapse(s[1..]);
      CollapsedCons(s[0], rest);
      [s[0]] + rest
  }

  /** One more character in front keeps a string collapsed if it is a plain space before a non-space, or no space at all. */
  lemma CollapsedCons(c: char, rest: string)
    requires Collapsed(rest)
    requires IsSpace(c) ==> c == ' ' && (rest == [] || !IsSpace(rest[0]))
    ensures Collapsed([c] + rest)
  {
    var t := [c] + rest;
    assert forall i :: 1 <= i < |t| ==> t[i] == rest[i - 1];
  }

  /** Collapsing changes nothing in a string that is already collapsed. */
  lemma {:induction false} CollapseCollapsed(s: string)
    requires Collapsed(s)
    ensures Collapse(s) == s
    decreases |s|
  {
    if s != [] {
      assert Collapsed(s[1..]);
      if IsSpace(s[0]) {
        assert TrimStart(s[1..]) == s[1..];
      }
      CollapseCollapsed(s[1..]);
      assert s == [s[0]] + s[1..];
    }
  }

  /** A non-space character at the end keeps a string collapsed. */
  lemma CollapsedSnoc(s: string, c: char)
    requires Collapsed(s) && !IsSpace(c)
    ensures Collapsed(s + [c])
  {
    var t := s + [c];
    assert forall i :: 0 <= i < |s| ==> t[i] == s[i];
  }

  lemma CollapsedSlice(s: string, i: nat, j: nat)
    requires Collapsed(s) && i <= j <= |s|
    ensures Collapsed(s[i..j])
  {
    assert forall k :: 0 <= k < j - i ==> s[i..j][k] == s[i + k];
  }

  /** Trimming a collapsed string keeps it collapsed. */
  lemma CollapsedTrim(s: string)
    requires Collapsed(s)
    ensures Collapsed(Trim(s))
  {
    CollapsedSlice(s, TrimOffset(s), TrimOffset(s) + |Trim(s)|);
  }

  /** The non-whitespace characters of `s`, in order. */
  function Squeeze(s: string): string {
    if s == [] then [] else (if IsSpace(s[0]) then [] else [s[0]]) + Squeeze(s[1..])
  }

  lemma {:induction false} SqueezeAppend(a: string, b: string)
    ensures Squeeze(a + b) == Squeeze(a) + Squeeze(b)
    decreases |a|
  {
    if a == [] {
      assert a + b == b;
    } else {
      assert (a + b)[0] == a[0] && (a + b)[1..] == a[1..] + b;
      SqueezeAppend(a[1..], b);
      var x := if IsSpace(a[0]) then [] else [a[0]];
      assert Squeeze(a + b) == x + Squeeze(a[1..] + b);
      assert Squeeze(a) == x + Squeeze(a[1..]);
    }
  }

  lemma {:induction false} SqueezeAllSpace(s: string)
    requires AllSpace(s)
    ensures Squeeze(s) == []
    decreases |s|
  {
    if s != [] {
      SqueezeAllSpace(s[1..]);
    }
  }

  lemma {:induction false} SqueezeTrimStart(s: string)
    ensures Squeeze(TrimStart(s)) == Squeeze(s)
    decreases |s|
  {
    if s != [] && IsSpace(s[0]) {
      SqueezeTrimStart(s[1..]);
    }
  }

  /** Trimming removes whitespace only. */
  lemma SqueezeTrim(s: string)
    ensures Squeeze(Trim(s)) == Squeeze(s)
  {
    var a, r := TrimOffset(s), Trim(s);
    var pre, post := s[..a], s[a + |r|..];
    assert s == pre + r + post;
    SqueezeAppend(pre + r, post);
    SqueezeAppend(pre, r);
    SqueezeAllSpace(pre);
    SqueezeAllSpace(post);
  }

  /** Collapsing whitespace runs keeps every other character, in order. */
  lemma {:induction false} SqueezeCollapse(s: string)
    ensures Squeeze(Collapse(s)) == Squeeze(s)
    decreases |s|
  {
    if s != [] {
      if IsSpace(s[0]) {
        var t := TrimStart(s[1..]);
        assert Collapse(s) == " " + Collapse(t);
        assert Squeeze(s) == Squeeze(s[1..]);
        SqueezeCollapse(t);
        SqueezeTrimStart(s[1..]);
        assert Squeeze(" " + Collapse(t)) == Squeeze(Collapse(t)) by {
          SqueezeAppend(" ", Collapse(t));
        }
      } else {
        assert Collapse(s) == [s[0]] + Collapse(s[1..]);
        assert Squeeze(s) == [s[0]] + Squeeze(s[1..]);
        SqueezeCollapse(s[1..]);
        SqueezeAppend([s[0]], Collapse(s[1..]));
      }
    }
  }

  /** A prefix of a string squeezes to a prefix of its squeezed form. */
  lemma {:induction false} SqueezePrefix(s: string, k: nat)
    requires k <= |s|
    ensures Squeeze(s[..k]) <= Squeeze(s)
    decreases k
  {
    if k == 0 {
      assert s[..k] == [];
    } else {
      SqueezePrefix(s[1..], k - 1);
      assert s[..k][1..] == s[1..][..k - 1];
      var h := if IsSpace(s[0]) then [] else [s[0]];
      assert Squeeze(s[..k]) == h + Squeeze(s[1..][..k - 1]);
      PrefixSameHead(h, Squeeze(s[1..][..k - 1]), Squeeze(s[1..]));
    }
  }

  /** ASCII lower-casing of one character (`toLowerCase` / `downcase` restricted to A-Z). */
  function LowerChar(c: char): char {
    if 'A' <= c <= 'Z' then (c as int + 32) as char else c
  }

  function Lower(s: string): string {
    Map(LowerChar, s)
  }

  predicate HasNoUpper(s: string) {
    forall i :: 0 <= i < |s| ==> !('A' <= s[i] <= 'Z')
  }

  /** Lower-casing leaves no upper-case letter, is idempotent and keeps whitespace where it was. */
  lemma LowerProperties(s: string)
    ensures |Lower(s)| == |s|
    ensures HasNoUpper(Lower(s))
    ensures Lower(Lower(s)) == Lower(s)
    ensures forall i :: 0 <= i < |s| ==> (IsSpace(Lower(s)[i]) <==> IsSpace(s[i]))
    ensures Trimmed(s) ==> Trimmed(Lower(s))
  {
  }

  lemma LowerOfLowerCase(s: string)
    requires HasNoUpper(s)
    ensures Lower(s) == s
  {
  }

  predicate StartsWith(s: string, p: string) {
    |p| <= |s| && s[..|p|] == p
  }

  /** `p` occurs in `s` starting at position `i`. */
  predicate OccursAt(s: string, p: string, i: int) {
    0 <= i && i + |p| <= |s| && s[i..i + |p|] == p
  }

  /** Ruby's `include?` and JavaScript's `includes`. */
  predicate Contains(s: string, p: string) {
    exists i :: 0 <= i <= |s| && OccursAt(s, p, i)
  }

  /** The first occurrence of `p` in `s` at or after `from`. */
  function Find(s: string, p: string, from: nat): (r: Option<nat>)
    ensures r.Some? ==> from <= r.value && OccursAt(s, p, r.value)
    ensures r.Some? ==> forall k :: from <= k < r.value ==> !OccursAt(s, p, k)
    ensures r.None? ==> forall k :: from <= k ==> !OccursAt(s, p, k)
  {
    if from > |s| then None else Scan(s, p, |s| - from)
  }

  /**
   * The scan behind `Find`, counting the positions still to try rather than
   * the position reached, so that a search from a constant position does not
   * unfold without end.
   */
  function Scan(s: string, p: string, n: nat): (r: Option<nat>)
    requires n <= |s|
    ensures r.Some? ==> |s| - n <= r.value && OccursAt(s, p, r.value)
    ensures r.Some? ==> forall k :: |s| - n <= k < r.value ==> !OccursAt(s, p, k)
    ensures r.None? ==> forall k :: |s| - n <= k ==> !OccursAt(s, p, k)
  {
    var from := |s| - n;
    if from + |p| > |s| then None
    else if s[from..from + |p|] == p then Some(from)
    else Scan(s, p, n - 1)
  }

  lemma FindContains(s: string, p: string)
    ensures Find(s, p, 0).Some? <==> Contains(s, p)
  {
    if Contains(s, p) {
      var i :| 0 <= i <= |s| && OccursAt(s, p, i);
    }
  }

  /** An occurrence with none before it, from `from` on, is the one `Find` reports. */
  lemma FindIs(s: string, p: string, from: nat, k: nat)
    requires from <= k && OccursAt(s, p, k)
    requires forall m :: from <= m < k ==> !OccursAt(s, p, m)
    ensures Find(s, p, from) == Some(k)
  {
  }

  predicate IsDigits(s: string) {
    forall i :: 0 <= i < |s| ==> '0' <= s[i] <= '9'
  }

  function DigitChar(d: nat): char
    requires d < 10
  {
    ('0' as int + d) as char
  }

  /** Decimal rendering of a natural number, as string interpolation prints it. */
  function NatToString(n: nat): (s: string)
    ensures |s| > 0 && IsDigits(s)
    decreases n
  {
    if n < 10 then [DigitChar(n)] else NatToString(n / 10) + [DigitChar(n % 10)]
  }

  function ParseNat(s: string): nat
    requires IsDigits(s)
  {
    if s == [] then 0 else ParseNat(s[..|s| - 1]) * 10 + (s[|s| - 1] as int - '0' as int)
  }

  /** Decimal rendering loses nothing: parsing it back gives the number. */
  lemma {:induction false} ParseNatToString(n: nat)
    ensures ParseNat(NatToString(n)) == n
    decreases n
  {
    if n >= 10 {
      ParseNatToString(n / 10);
      var s := NatToString(n);
      assert s[..|s| - 1] == NatToString(n / 10);
    }
  }
}
