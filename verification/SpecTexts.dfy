/** The text of a spec: its fields, the items of a field, and which items are hashed. */
module SpecTexts {

  /** unicode.IsSpace */
  predicate IsSpace(c: char) {
    var n := c as int;
    || 0x9 <= n <= 0xD || n == 0x20 || n == 0x85 || n == 0xA0 || n == 0x1680 || 0x2000 <= n <= 0x200A
    || n == 0x2028 || n == 0x2029 || n == 0x202F || n == 0x205F || n == 0x3000
  }

  /** The white space of Unicode, character by character. */
  lemma SpacesAre(c: char)
    ensures IsSpace(c) <==> c in {'\t', '\n', '\U{000B}', '\U{000C}', '\r', ' ', '\U{0085}', '\U{00A0}', '\U{1680}',
                                  '\U{2000}', '\U{2001}', '\U{2002}', '\U{2003}', '\U{2004}', '\U{2005}', '\U{2006}',
                                  '\U{2007}', '\U{2008}', '\U{2009}', '\U{200A}', '\U{2028}', '\U{2029}', '\U{202F}',
                                  '\U{205F}', '\U{3000}'}
  {
  }

  /** The first position from i on that holds a space, or the end. */
  function WordEnd(s: string, i: nat): (j: nat)
    requires i <= |s|
    ensures i <= j <= |s| && (forall k :: i <= k < j ==> !IsSpace(s[k])) && (j < |s| ==> IsSpace(s[j]))
    decreases |s| - i
  {
    if i < |s| && !IsSpace(s[i]) then WordEnd(s, i + 1) else i
  }

  function FieldsFrom(s: string, i: nat): seq<string>
    requires i <= |s|
    decreases |s| - i
  {
    if i == |s| then []
    else if IsSpace(s[i]) then FieldsFrom(s, i + 1)
    else [s[i..WordEnd(s, i)]] + FieldsFrom(s, WordEnd(s, i))
  }

  /** strings.Fields */
  function Fields(s: string): seq<string> { FieldsFrom(s, 0) }

  /** Positions a to b of s hold a word with spaces, or nothing, around it. */
  predicate IsWord(s: string, a: int, b: int) {
    && 0 <= a < b <= |s|
    && (forall k :: a <= k < b ==> !IsSpace(s[k]))
    && (a == 0 || IsSpace(s[a - 1]))
    && (b == |s| || IsSpace(s[b]))
  }

  predicate IsWordOf(s: string, a: int, b: int, f: string) { IsWord(s, a, b) && f == s[a..b] }

  lemma {:induction false} WordIsFieldFrom(s: string, i: nat, a: nat, b: nat)
    requires i <= a && IsWord(s, a, b)
    ensures s[a..b] in FieldsFrom(s, i)
    decreases |s| - i
  {
    hide IsSpace;
    if i >= a {
    } else {
      if IsSpace(s[i]) {
        WordIsFieldFrom(s, i + 1, a, b);
      } else {
        assert IsSpace(s[a - 1]);
        WordIsFieldFrom(s, WordEnd(s, i), a, b);
      }
    }
  }

  lemma {:induction false} FieldFromIsWord(s: string, i: nat, f: string) returns (a: nat, b: nat)
    requires i <= |s| && f in FieldsFrom(s, i) && (i == 0 || IsSpace(s[i - 1]) || i == |s| || IsSpace(s[i]))
    ensures IsWord(s, a, b) && f == s[a..b]
    decreases |s| - i
  {
    hide IsSpace;
    if IsSpace(s[i]) {
      a, b := FieldFromIsWord(s, i + 1, f);
    } else {
      var j := WordEnd(s, i);
      if f == s[i..j] {
        a, b := i, j;
      } else {
        a, b := FieldFromIsWord(s, j, f);
      }
    }
  }

  /** The fields of a text are its words. */
  lemma FieldsAreWords(s: string, f: string)
    ensures f in Fields(s) <==> exists a, b :: IsWordOf(s, a, b, f)
  {
    hide IsSpace;
    if f in Fields(s) {
      var a, b := FieldFromIsWord(s, 0, f);
      assert IsWordOf(s, a, b, f);
    }
    if exists a, b :: IsWordOf(s, a, b, f) {
      var a, b :| IsWordOf(s, a, b, f);
      WordIsFieldFrom(s, 0, a, b);
    }
  }

  // ----- trimming -----

  function TrimLeft(s: string): (r: string)
    ensures |r| <= |s| && r == s[|s| - |r|..]
    ensures forall k :: 0 <= k < |s| - |r| ==> IsSpace(s[k])
    ensures r != [] ==> !IsSpace(r[0])
  {
    if s != [] && IsSpace(s[0]) then TrimLeft(s[1..]) else s
  }

  function TrimRight(s: string): (r: string)
    ensures |r| <= |s| && r == s[..|r|]
    ensures |r| < |s| ==> IsSpace(s[|r|])
  {
    if s != [] && IsSpace(s[|s| - 1]) then TrimRight(s[..|s| - 1]) else s
  }

  /** strings.TrimSpace */
  function TrimSpace(s: string): string { TrimRight(TrimLeft(s)) }

  /** What follows the first space of a text holds only fields of the text. */
  lemma FieldsOfRest(s: string, i: nat, f: string)
    requires i < |s| && IsSpace(s[i]) && f in Fields(TrimSpace(s[i..]))
    ensures f in Fields(s)
  {
    hide IsSpace, IsWordOf, Fields, TrimSpace;
    var o, e := RestIsStretch(s, i);
    FieldsAreWords(s[o..e], f);
    var a, b :| IsWordOf(s[o..e], a, b, f);
    WordOfStretch(s, o, e, a, b, f);
    FieldsAreWords(s, f);
  }

  /** Trimming what follows a space leaves a stretch of the text with spaces, or nothing, around it. */
  lemma RestIsStretch(s: string, i: nat) returns (o: nat, e: nat)
    requires i < |s| && IsSpace(s[i])
    ensures o <= e <= |s| && TrimSpace(s[i..]) == s[o..e]
    ensures (o == 0 || IsSpace(s[o - 1])) && (e == |s| || IsSpace(s[e]))
  {
    hide IsSpace, TrimLeft, TrimRight;
    var tail := s[i..];
    var left := TrimLeft(tail);
    var rest := TrimRight(left);
    o := |s| - |left|;
    e := o + |rest|;
    assert tail[0] == s[i];
    assert left == s[o..];
    assert o > i;
    assert s[o - 1] == tail[o - 1 - i];
    assert e < |s| ==> s[e] == left[|rest|];
  }

  lemma WordOfStretch(s: string, o: nat, e: nat, a: int, b: int, f: string)
    requires o <= e <= |s| && (o == 0 || IsSpace(s[o - 1])) && (e == |s| || IsSpace(s[e]))
    requires IsWordOf(s[o..e], a, b, f)
    ensures IsWordOf(s, o + a, o + b, f)
  {
    hide IsSpace;
    var t := s[o..e];
    assert forall k :: o + a <= k < o + b ==> s[k] == t[k - o];
  }

  // ----- items -----

  predicate HasPrefixH(item: string) { item != [] && item[0] == 'H' }

  /** Some comma-separated part of the field starts with H. */
  predicate HasHashItem(f: string) {
    exists k :: 0 <= k < |f| && f[k] == 'H' && (k == 0 || f[k - 1] == ',')
  }

  /** containsHashExpr */
  predicate ContainsHash(fields: seq<string>) {
    exists i :: 0 <= i < |fields| && HasHashItem(fields[i])
  }

  function CommaFrom(f: string, i: nat): (j: nat)
    requires i <= |f|
    ensures i <= j <= |f| && (forall k :: i <= k < j ==> f[k] != ',') && (j < |f| ==> f[j] == ',')
    decreases |f| - i
  {
    if i < |f| && f[i] != ',' then CommaFrom(f, i + 1) else i
  }

  /** splitList: the items from position i on, without the empty ones. */
  function ItemsFrom(f: string, i: nat): seq<string>
    requires i <= |f|
    decreases |f| - i
  {
    if i == |f| then []
    else if f[i] == ',' then ItemsFrom(f, i + 1)
    else [f[i..CommaFrom(f, i)]] + ItemsFrom(f, CommaFrom(f, i))
  }

  /** Only a field with a hash item has an item that starts with H. */
  lemma {:induction false} ItemsWithoutHash(f: string, i: nat, item: string)
    requires i <= |f| && item in ItemsFrom(f, i) && (i == 0 || f[i - 1] == ',' || i == |f| || f[i] == ',')
    requires !HasHashItem(f)
    ensures !HasPrefixH(item)
    decreases |f| - i
  {
    if f[i] == ',' {
      ItemsWithoutHash(f, i + 1, item);
    } else {
      var j := CommaFrom(f, i);
      if item != f[i..j] {
        ItemsWithoutHash(f, j, item);
      }
    }
  }
}
