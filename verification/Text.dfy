/** Text primitives the repository relies on: Unicode white space, trimming, UTF-8 length, prefixes. */
module Text {

  /** The characters with the Unicode property White_Space. */
  predicate IsWhitespace(c: char) {
    var n := c as int;
    || 0x9 <= n <= 0xD || n == 0x20 || n == 0x85 || n == 0xA0 || n == 0x1680
    || 0x2000 <= n <= 0x200A || n == 0x2028 || n == 0x2029 || n == 0x202F || n == 0x205F || n == 0x3000
  }

  /** The text is empty once trimmed. */
  predicate Blank(s: string) {
    forall i :: 0 <= i < |s| ==> IsWhitespace(s[i])
  }

  function TrimStart(s: string): (r: string)
    ensures |r| <= |s|
    ensures r == [] || !IsWhitespace(r[0])
  {
    if s != [] && IsWhitespace(s[0]) then TrimStart(s[1..]) else s
  }

  function TrimEnd(s: string): (r: string)
    ensures r <= s
    ensures r == [] || !IsWhitespace(r[|r| - 1])
  {
    if s != [] && IsWhitespace(s[|s| - 1]) then TrimEnd(s[..|s| - 1]) else s
  }

  function Trim(s: string): string { TrimEnd(TrimStart(s)) }

  /** A text that trimming leaves as it is. */
  predicate Trimmed(s: string) {
    s == [] || (!IsWhitespace(s[0]) && !IsWhitespace(s[|s| - 1]))
  }

  lemma TrimOfTrimmed(s: string)
    requires Trimmed(s)
    ensures Trim(s) == s
  {
  }

  lemma TrimIsTrimmed(s: string)
    ensures Trimmed(Trim(s))
  {
    var t := TrimStart(s);
    assert TrimEnd(t) != [] ==> TrimEnd(t)[0] == t[0];
  }

  lemma {:induction false} TrimStartBlank(s: string)
    ensures TrimStart(s) == [] <==> Blank(s)
  {
    if s != [] && IsWhitespace(s[0]) {
      TrimStartBlank(s[1..]);
      assert s == [s[0]] + s[1..];
      assert Blank(s) ==> Blank(s[1..]) by {
        assert forall i :: 0 <= i < |s[1..]| ==> s[1..][i] == s[i + 1];
      }
    }
  }

  lemma {:induction false} TrimEndKeepsInk(t: string)
    requires t != [] && !IsWhitespace(t[0])
    ensures TrimEnd(t) != []
  {
    if IsWhitespace(t[|t| - 1]) {
      TrimEndKeepsInk(t[..|t| - 1]);
    }
  }

  /** Trimming empties exactly the blank texts. */
  lemma TrimBlank(s: string)
    ensures Trim(s) == [] <==> Blank(s)
  {
    TrimStartBlank(s);
    if TrimStart(s) != [] {
      TrimEndKeepsInk(TrimStart(s));
    }
  }

  /** The number of bytes a character takes in UTF-8. */
  function CharBytes(c: char): (n: nat)
    ensures 1 <= n <= 4
  {
    var n := c as int;
    if n < 0x80 then 1 else if n < 0x800 then 2 else if n < 0x10000 then 3 else 4
  }

  /** The length of a text in UTF-8 bytes. */
  function ByteLength(s: string): nat {
    if s == [] then 0 else CharBytes(s[0]) + ByteLength(s[1..])
  }

  lemma {:induction false} BytesBound(s: string)
    ensures ByteLength(s) <= 4 * |s|
  {
    if s != [] {
      BytesBound(s[1..]);
    }
  }

  predicate OccursAt(text: string, term: string, i: nat) {
    i + |term| <= |text| && text[i..i + |term|] == term
  }

  predicate Contains(text: string, term: string) {
    exists i :: 0 <= i <= |text| && OccursAt(text, term, i)
  }

  /** The namespace that an APP owns. */
  function Namespace(appId: string): string { appId + "." }

  predicate InNamespace(appId: string, name: string) { Namespace(appId) <= name && |name| > |Namespace(appId)| }
}
