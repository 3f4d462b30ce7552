/** Text predicates behind the lookups of the filter sets: case-insensitive
    substring (`icontains`), prefix (`startswith`), and the whitespace
    stripping that a form's text field applies to every submitted value. */
module Text {

  /** ASCII case folding, the folding SQLite's LIKE applies. */
  function LowerChar(c: char): (r: char)
    ensures 'A' <= c <= 'Z' ==> r as int == c as int + 32
    ensures !('A' <= c <= 'Z') ==> r == c
    ensures !('A' <= r <= 'Z')
  {
    if 'A' <= c <= 'Z' then (c as int + 32) as char else c
  }

  function Lower(s: string): (r: string)
    ensures |r| == |s|
    ensures forall i :: 0 <= i < |s| ==> r[i] == LowerChar(s[i])
  {
    if s == [] then [] else [LowerChar(s[0])] + Lower(s[1..])
  }

  /** `p` is a prefix of `s`. */
  predicate StartsWith(s: string, p: string)
  {
    |p| <= |s| && s[..|p|] == p
  }

  /** `q` occurs in `s` as a contiguous piece. */
  predicate Contains(s: string, q: string)
    decreases |s|
  {
    StartsWith(s, q) || (s != [] && Contains(s[1..], q))
  }

  /** `q` occurs in `s` at offset `i`. */
  predicate OccursAt(s: string, q: string, i: int)
  {
    0 <= i <= |s| - |q| && s[i..i + |q|] == q
  }

  /** `Contains` finds exactly the offsets at which `q` occurs. */
  lemma {:induction false} ContainsIff(s: string, q: string)
    ensures Contains(s, q) <==> exists i :: OccursAt(s, q, i)
  {
    if Contains(s, q) {
      if StartsWith(s, q) {
        assert OccursAt(s, q, 0);
      } else {
        ContainsIff(s[1..], q);
        var j :| OccursAt(s[1..], q, j);
        assert s[j + 1..j + 1 + |q|] == s[1..][j..j + |q|];
        assert OccursAt(s, q, j + 1);
      }
    }
    if exists i :: OccursAt(s, q, i) {
      var i :| OccursAt(s, q, i);
      if i > 0 {
        assert s[1..][i - 1..i - 1 + |q|] == s[i..i + |q|];
        assert OccursAt(s[1..], q, i - 1);
        ContainsIff(s[1..], q);
      }
    }
  }

  /** `icontains`: `q` occurs in `s` when case is ignored. */
  predicate IContains(s: string, q: string)
  {
    Contains(Lower(s), Lower(q))
  }

  /** The characters Python's `str.strip()` removes (those for which
      `str.isspace()` holds). */
  predicate IsSpace(c: char)
  {
    c == ' ' || '\t' <= c <= '\r' || '\U{1c}' <= c <= '\U{1f}'
    || c == '\U{85}' || c == '\U{a0}' || c == '\U{1680}'
    || '\U{2000}' <= c <= '\U{200a}' || c == '\U{2028}' || c == '\U{2029}'
    || c == '\U{202f}' || c == '\U{205f}' || c == '\U{3000}'
  }

  predicate AllSpace(s: string)
  {
    forall i :: 0 <= i < |s| ==> IsSpace(s[i])
  }

  /** The number of whitespace characters `s` starts with. */
  function LeadingSpace(s: string): (k: nat)
    ensures k <= |s| && AllSpace(s[..k])
    ensures k < |s| ==> !IsSpace(s[k])
  {
    if s != [] && IsSpace(s[0]) then
      var k := LeadingSpace(s[1..]);
      assert s[..k + 1] == [s[0]] + s[1..][..k];
      k + 1
    else 0
  }

  /** The number of whitespace characters `s` ends with. */
  function TrailingSpace(s: string): (k: nat)
    ensures k <= |s| && AllSpace(s[|s| - k..])
    ensures k < |s| ==> !IsSpace(s[|s| - 1 - k])
  {
    if s != [] && IsSpace(s[|s| - 1]) then
      var init := s[..|s| - 1];
      var k := TrailingSpace(init);
      assert s[|s| - (k + 1)..] == init[|init| - k..] + [s[|s| - 1]];
      k + 1
    else 0
  }

  /** `r` is `s` at offset `i` and only whitespace surrounds it there. */
  predicate SpaceAround(s: string, i: int, r: string)
  {
    0 <= i <= |s| - |r| && s[i..i + |r|] == r && AllSpace(s[..i]) && AllSpace(s[i + |r|..])
  }

  /** Python's `str.strip()`: `s` with its leading and trailing whitespace
      removed, and nothing else changed. */
  function Strip(s: string): (r: string)
    ensures r == [] || (!IsSpace(r[0]) && !IsSpace(r[|r| - 1]))
    ensures exists i :: SpaceAround(s, i, r)
  {
    var i := LeadingSpace(s);
    if i == |s| then
      assert SpaceAround(s, i, []);
      []
    else
      var k := TrailingSpace(s);
      assert k < |s| - i;
      var r := s[i..|s| - k];
      assert SpaceAround(s, i, r);
      r
  }

  /** Stripping leaves nothing exactly when the text is all whitespace. */
  lemma StripEmpty(s: string)
    ensures Strip(s) == [] <==> AllSpace(s)
  {
    var r := Strip(s);
    var i :| SpaceAround(s, i, r);
    if r == [] {
      forall j | 0 <= j < |s| ensures IsSpace(s[j]) {
        if j < i {
          assert s[..i][j] == s[j];
        } else {
          assert s[i..][j - i] == s[j];
        }
      }
    } else {
      assert s[i..i + |r|][0] == s[i];
    }
  }
}
