/** The string normalisation the cleaning step applies: Python's `str.strip()`
    and `str.lower()`, restricted to ASCII. */
module Text {

  /** Python's `str.isspace` on ASCII: tab, line feed, vertical tab, form feed,
      carriage return, the four information separators 0x1C-0x1F and space. */
  predicate IsSpace(c: char)
  {
    9 <= c as int <= 13 || 28 <= c as int <= 32
  }

  predicate IsUpper(c: char)
  {
    'A' <= c <= 'Z'
  }

  /** No whitespace at either end. */
  predicate Trimmed(s: string)
  {
    s == [] || (!IsSpace(s[0]) && !IsSpace(s[|s| - 1]))
  }

  function StripLeading(s: string): (r: string)
    ensures |r| <= |s| && r == s[|s| - |r|..]
    ensures forall k :: 0 <= k < |s| - |r| ==> IsSpace(s[k])
    ensures r == [] || !IsSpace(r[0])
  {
    if s != [] && IsSpace(s[0]) then StripLeading(s[1..]) else s
  }

  function StripTrailing(s: string): (r: string)
    ensures |r| <= |s| && r == s[..|r|]
    ensures forall k :: |r| <= k < |s| ==> IsSpace(s[k])
    ensures r == [] || !IsSpace(r[|r| - 1])
  {
    if s != [] && IsSpace(s[|s| - 1]) then StripTrailing(s[..|s| - 1]) else s
  }

  /** `s.strip()`: leading whitespace removed, then trailing whitespace. */
  function Strip(s: string): string
  {
    StripTrailing(StripLeading(s))
  }

  /** Strip removes exactly a whitespace prefix and a whitespace suffix, and
      what remains has no whitespace at either end. */
  lemma StripRemovesSurroundingSpace(s: string) returns (i: nat, j: nat)
    ensures i <= j <= |s| && Strip(s) == s[i..j]
    ensures forall k :: 0 <= k < i ==> IsSpace(s[k])
    ensures forall k :: j <= k < |s| ==> IsSpace(s[k])
    ensures Trimmed(Strip(s))
  {
    var l := StripLeading(s);
    var r := StripTrailing(l);
    i := |s| - |l|;
    j := i + |r|;
    assert l == s[i..];
    assert r == l[..|r|];
    assert r == s[i..j];
    forall k | j <= k < |s| ensures IsSpace(s[k]) {
      assert |r| <= k - i < |l|;
      assert IsSpace(l[k - i]);
      assert s[k] == l[k - i];
    }
  }

  /** Stripping a stripped string changes nothing. */
  lemma StripIdempotent(s: string)
    ensures Strip(Strip(s)) == Strip(s)
  {
    var t := Strip(s);
    var _, _ := StripRemovesSurroundingSpace(s);
    assert StripLeading(t) == t;
    assert StripTrailing(t) == t;
  }

  function LowerChar(c: char): (d: char)
  {
    if IsUpper(c) then (c as int + 32) as char else c
  }

  /** `s.lower()` on ASCII letters. */
  function Lower(s: string): (r: string)
  {
    seq(|s|, i requires 0 <= i < |s| => LowerChar(s[i]))
  }

  /** Lowercasing leaves no upper-case letter, changes only upper-case letters,
      and maps whitespace to whitespace and nothing else to whitespace. */
  lemma LowerSpec(s: string)
    ensures |Lower(s)| == |s|
    ensures forall i :: 0 <= i < |s| ==> !IsUpper(Lower(s)[i])
    ensures forall i :: 0 <= i < |s| && !IsUpper(s[i]) ==> Lower(s)[i] == s[i]
    ensures forall i :: 0 <= i < |s| && IsUpper(s[i]) ==> Lower(s)[i] as int == s[i] as int + 32
    ensures forall i :: 0 <= i < |s| ==> (IsSpace(Lower(s)[i]) <==> IsSpace(s[i]))
  {
  }

  /** Header normalisation: `name.strip().lower()`. */
  function NormalizeName(name: string): (r: string)
  {
    Lower(Strip(name))
  }

  /** A normalised name has no surrounding whitespace and no upper-case letter,
      and is the lowercase of what is left of the name once a whitespace prefix
      and a whitespace suffix are removed. */
  lemma NormalizeNameSpec(name: string) returns (i: nat, j: nat)
    ensures i <= j <= |name| && NormalizeName(name) == Lower(name[i..j])
    ensures forall k :: 0 <= k < i ==> IsSpace(name[k])
    ensures forall k :: j <= k < |name| ==> IsSpace(name[k])
    ensures Trimmed(NormalizeName(name))
    ensures forall k :: 0 <= k < |NormalizeName(name)| ==> !IsUpper(NormalizeName(name)[k])
  {
    i, j := StripRemovesSurroundingSpace(name);
    LowerSpec(Strip(name));
  }

  /** Normalising twice is the same as normalising once. */
  lemma NormalizeNameIdempotent(name: string)
    ensures NormalizeName(NormalizeName(name)) == NormalizeName(name)
  {
    var n := NormalizeName(name);
    var _, _ := NormalizeNameSpec(name);
    LowerSpec(Strip(name));
    assert StripLeading(n) == n;
    assert StripTrailing(n) == n;
    LowerSpec(n);
    assert Lower(n) == n;
  }

  /** The header `" StateName "` becomes `"statename"`. */
  lemma NormalizeNameExample()
    ensures NormalizeName(" StateName ") == "statename"
  {
    assert StripLeading(" StateName ") == "StateName ";
    assert StripTrailing("StateName ") == "StateName";
  }
}
