/** The two string operations the journal applies to what the operator types:
    Python's `str.lower()` and `str.strip()`, and their composition, which
    normalises every menu choice and every per-entry action. */
module Text {

  /** Python's `str.isspace` for one character: the characters that
      `str.strip()` with no argument removes. */
  predicate IsSpace(c: char) {
    c == ' ' || '\t' <= c <= '\r' || '\U{1c}' <= c <= '\U{1f}'
    || c == '\U{85}' || c == '\U{a0}' || c == '\U{1680}'
    || '\U{2000}' <= c <= '\U{200a}' || c == '\U{2028}' || c == '\U{2029}'
    || c == '\U{202f}' || c == '\U{205f}' || c == '\U{3000}'
  }

  predicate AllSpace(s: string) {
    forall k :: 0 <= k < |s| ==> IsSpace(s[k])
  }

  /** Lower-casing of one character; only the ASCII letters are mapped. */
  function LowerChar(c: char): (r: char)
    ensures 'A' <= c <= 'Z' ==> 'a' <= r <= 'z' && r as int == c as int + 32
    ensures !('A' <= c <= 'Z') ==> r == c
    ensures IsSpace(r) <==> IsSpace(c)
  {
    if 'A' <= c <= 'Z' then (c as int + 32) as char else c
  }

  /** `s.lower()`. What it does character by character is `LowerAt`. */
  function Lower(s: string): (r: string)
    ensures |r| == |s|
  {
    if s == [] then [] else [LowerChar(s[0])] + Lower(s[1..])
  }

  /** `s.lower()` lower-cases every character in place and adds or removes none. */
  lemma {:induction false} LowerAt(s: string)
    ensures forall i :: 0 <= i < |s| ==> Lower(s)[i] == LowerChar(s[i])
  {
    if s != [] {
      LowerAt(s[1..]);
    }
  }

  /** The number of whitespace characters `s` starts with (see `LeadSpec`). */
  function Lead(s: string): (n: nat)
    ensures n <= |s|
  {
    if s != [] && IsSpace(s[0]) then
      1 + Lead(s[1..])
    else 0
  }

  /** The first `Lead(s)` characters are whitespace and the next one is not. */
  lemma {:induction false} LeadSpec(s: string)
    ensures AllSpace(s[..Lead(s)])
    ensures Lead(s) < |s| ==> !IsSpace(s[Lead(s)])
  {
    if s != [] && IsSpace(s[0]) {
      LeadSpec(s[1..]);
      assert s[..Lead(s)] == [s[0]] + s[1..][..Lead(s[1..])];
    }
  }

  /** The length of `s` without its trailing whitespace (see `TrailSpec`). */
  function Trail(s: string): (n: nat)
    ensures n <= |s|
  {
    if s != [] && IsSpace(s[|s| - 1]) then
      Trail(s[..|s| - 1])
    else |s|
  }

  /** The characters from `Trail(s)` on are whitespace and the one before is not. */
  lemma {:induction false} TrailSpec(s: string)
    ensures AllSpace(s[Trail(s)..])
    ensures Trail(s) > 0 ==> !IsSpace(s[Trail(s) - 1])
  {
    if s != [] && IsSpace(s[|s| - 1]) {
      var p := s[..|s| - 1];
      TrailSpec(p);
      assert s[Trail(s)..] == p[Trail(p)..] + [s[|s| - 1]];
      if Trail(p) > 0 {
        assert s[Trail(s) - 1] == p[Trail(p) - 1];
      }
    }
  }

  /** `s.strip()`: `s` without the whitespace on both sides (see `StripSpec`). */
  function Strip(s: string): (r: string)
    ensures |r| <= |s|
  {
    var a, b := Lead(s), Trail(s);
    if a == |s| then
      []
    else
      LeadSpec(s);
      TrailSpec(s);
      assert a < b;
      s[a..b]
  }

  /** `strip()` leaves nothing exactly when `s` is all whitespace; otherwise
      it leaves the factor from the first to the last character that is not
      whitespace, which therefore neither starts nor ends with whitespace. */
  lemma {:induction false} StripSpec(s: string)
    ensures Strip(s) == [] <==> AllSpace(s)
    ensures Strip(s) != [] ==> Lead(s) < Trail(s) && Strip(s) == s[Lead(s)..Trail(s)]
    ensures Strip(s) != [] ==> !IsSpace(Strip(s)[0]) && !IsSpace(Strip(s)[|Strip(s)| - 1])
  {
    var a, b := Lead(s), Trail(s);
    LeadSpec(s);
    TrailSpec(s);
    if a == |s| {
      assert s[..a] == s;
    } else {
      assert !IsSpace(s[a]);
      assert a < b;
      var r := s[a..b];
      assert r[0] == s[a] && r[|r| - 1] == s[b - 1];
    }
  }

  /** `s.lower().strip()`: how the menu and the per-entry prompt read an answer. */
  function Normalize(s: string): (r: string)
    ensures |r| <= |s|
  {
    Strip(Lower(s))
  }

  /** A single character key is what `Strip` leaves exactly when the input is
      that character surrounded by whitespace only. */
  lemma {:induction false} StripIsKey(s: string, c: char)
    requires !IsSpace(c)
    ensures Strip(s) == [c] <==>
            exists i :: 0 <= i < |s| && s[i] == c && AllSpace(s[..i]) && AllSpace(s[i + 1..])
  {
    var r := Strip(s);
    StripSpec(s);
    LeadSpec(s);
    TrailSpec(s);
    if r == [c] {
      var a := Lead(s);
      assert s[a] == c;
      assert s[a + 1..] == s[Trail(s)..];
    }
  }

  /** A menu or per-entry answer normalises to the key `k` exactly when it is
      `k` or its upper-case form, surrounded by whitespace only. */
  lemma {:induction false} NormalizeIsKey(s: string, k: char)
    requires 'a' <= k <= 'z'
    ensures Normalize(s) == [k] <==>
            exists i :: 0 <= i < |s| && LowerChar(s[i]) == k && AllSpace(s[..i]) && AllSpace(s[i + 1..])
  {
    var l := Lower(s);
    LowerAt(s);
    StripIsKey(l, k);
    forall i | 0 <= i <= |s|
      ensures AllSpace(l[..i]) <==> AllSpace(s[..i])
      ensures AllSpace(l[i..]) <==> AllSpace(s[i..])
    {
      assert forall j :: 0 <= j < i ==> l[..i][j] == LowerChar(s[..i][j]);
      assert forall j :: 0 <= j < |s| - i ==> l[i..][j] == LowerChar(s[i..][j]);
    }
  }

  /** An answer lower-cases to the one-letter string `[k]` exactly when it is
      `k` or its upper-case form: this `Lower` neither adds nor removes characters
      (Python also lowers the Kelvin sign to `k`; the answers compared are `n` and `y`). */
  lemma {:induction false} LowerIsLetter(s: string, k: char)
    requires 'a' <= k <= 'z'
    ensures Lower(s) == [k] <==> s == [k] || s == [(k as int - 32) as char]
  {
    LowerAt(s);
    if Lower(s) == [k] {
      assert |s| == 1 && LowerChar(s[0]) == k;
      assert s == [s[0]];
    }
    if s == [(k as int - 32) as char] {
      assert Lower(s)[0] == k;
    }
  }
}
