/**
 * The file-name handling of `MiniPaint.add_file_entry` (generate_png.py): the
 * dialog's answer is stripped of whitespace as Python's `str.strip()` does,
 * and `.png` is appended unless the name already ends with it in any case.
 */
module FileNames {
  import opened Wrappers
  import LayoutHistory

  /** Python's `str.isspace` for one character, the set `str.strip()` removes. */
  predicate IsSpace(c: char)
  {
    || '\t' <= c <= '\r'
    || '\U{1C}' <= c <= ' '
    || c == '\U{85}' || c == '\U{A0}' || c == '\U{1680}'
    || '\U{2000}' <= c <= '\U{200A}'
    || c == '\U{2028}' || c == '\U{2029}' || c == '\U{202F}' || c == '\U{205F}' || c == '\U{3000}'
  }

  predicate AllSpace(s: string)
  {
    forall i :: 0 <= i < |s| ==> IsSpace(s[i])
  }

  /** The index of the first non-whitespace character at or after `i`, or `|s|`. */
  function SkipSpace(s: string, i: nat): (r: nat)
    requires i <= |s|
    ensures i <= r <= |s|
    ensures forall k :: i <= k < r ==> IsSpace(s[k])
    ensures r == |s| || !IsSpace(s[r])
    decreases |s| - i
  {
    if i < |s| && IsSpace(s[i]) then SkipSpace(s, i + 1) else i
  }

  /** The end of `s[..j]` once the whitespace back to index `i` is dropped. */
  function SkipSpaceBack(s: string, i: nat, j: nat): (r: nat)
    requires i <= j <= |s|
    ensures i <= r <= j
    ensures forall k :: r <= k < j ==> IsSpace(s[k])
    ensures r == i || !IsSpace(s[r - 1])
  {
    if j > i && IsSpace(s[j - 1]) then SkipSpaceBack(s, i, j - 1) else j
  }

  /** Where the stripped string starts in `s`. */
  function StripStart(s: string): (r: nat)
    ensures r <= |s|
    ensures forall k :: 0 <= k < r ==> IsSpace(s[k])
    ensures r == |s| || !IsSpace(s[r])
  {
    SkipSpace(s, 0)
  }

  /**
   * `str.strip()`: scan forward over leading whitespace, back over trailing
   * whitespace, and keep what lies between. The result has no whitespace at
   * either end and is empty exactly when `s` is all whitespace.
   */
  function Strip(s: string): (r: string)
    ensures r == [] || (!IsSpace(r[0]) && !IsSpace(r[|r| - 1]))
    ensures r == [] <==> AllSpace(s)
  {
    var i := StripStart(s);
    var j := SkipSpaceBack(s, i, |s|);
    assert i < j ==> s[i..j][0] == s[i] && s[i..j][j - i - 1] == s[j - 1];
    s[i..j]
  }

  /**
   * `Strip(s)` is the slice of `s` from `StripStart(s)`, and whitespace is
   * all it leaves out, on either side.
   */
  lemma StripRemovesEnds(s: string)
    ensures var a, r := StripStart(s), Strip(s);
      && a + |r| <= |s| && r == s[a..a + |r|]
      && (forall k :: 0 <= k < a ==> IsSpace(s[k]))
      && (forall k :: a + |r| <= k < |s| ==> IsSpace(s[k]))
  {
  }

  /** A string without whitespace at either end strips to itself. */
  lemma StripTrimmed(s: string)
    requires s == [] || (!IsSpace(s[0]) && !IsSpace(s[|s| - 1]))
    ensures Strip(s) == s
  {
    if s != [] {
      assert SkipSpace(s, 0) == 0;
      assert SkipSpaceBack(s, 0, |s|) == |s|;
    }
  }

  function AsciiLower(c: char): char
  {
    if 'A' <= c <= 'Z' then (c as int + 32) as char else c
  }

  const PngSuffix: string := ".png"

  /**
   * `name.lower().endswith(".png")`. Only the four ASCII letters matter: no
   * other character lowers to one of `.`, `p`, `n`, `g`.
   */
  predicate HasPngSuffix(s: string)
  {
    && |s| >= 4
    && s[|s| - 4] == '.'
    && AsciiLower(s[|s| - 3]) == 'p'
    && AsciiLower(s[|s| - 2]) == 'n'
    && AsciiLower(s[|s| - 1]) == 'g'
  }

  /**
   * The name `add_file_entry` goes on with, or `None` when it returns early:
   * no answer, an empty answer, or an answer that strips to nothing.
   */
  function NormalizedName(input: Option<string>): (r: Option<string>)
  {
    if input.None? || input.value == [] then None
    else
      var name := Strip(input.value);
      if name == [] then None
      else if HasPngSuffix(name) then Some(name)
      else Some(name + PngSuffix)
  }

  /**
   * A name is produced exactly when the answer holds a non-whitespace
   * character; it starts with the stripped answer, adds at most the suffix,
   * ends in `.png`, has no surrounding whitespace, and can never be the
   * legacy layout key.
   */
  lemma NormalizedNameShape(input: Option<string>)
    ensures NormalizedName(input).None? <==> input.None? || AllSpace(input.value)
    ensures var r := NormalizedName(input);
      r.Some? ==>
        && HasPngSuffix(r.value)
        && !IsSpace(r.value[0]) && !IsSpace(r.value[|r.value| - 1])
        && Strip(input.value) <= r.value && |r.value| <= |Strip(input.value)| + |PngSuffix|
        && r.value != LayoutHistory.LegacyKey
  {
    assert !HasPngSuffix(LayoutHistory.LegacyKey);
    if input.Some? && input.value != [] {
      var name := Strip(input.value);
      if name != [] {
        if HasPngSuffix(name) {
          assert NormalizedName(input) == Some(name);
        } else {
          assert NormalizedName(input) == Some(name + PngSuffix);
          SuffixAppended(name);
        }
      }
    }
  }

  lemma SuffixAppended(name: string)
    requires name != [] && !IsSpace(name[0])
    ensures var r := name + PngSuffix;
      HasPngSuffix(r) && !IsSpace(r[0]) && !IsSpace(r[|r| - 1]) && name <= r
  {
    var r := name + PngSuffix;
    assert r[|r| - 4..] == PngSuffix;
    assert r[..|name|] == name;
  }

  /** Normalizing a normalized name gives it back. */
  lemma NormalizedNameIdempotent(input: Option<string>)
    requires NormalizedName(input).Some?
    ensures NormalizedName(NormalizedName(input)) == NormalizedName(input)
  {
    NormalizedNameShape(input);
    var name := NormalizedName(input).value;
    StripTrimmed(name);
  }
}
