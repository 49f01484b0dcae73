/** 8.3 names of fs/fat32.c: padding, checking and printing. A C string is the
    sequence of its bytes before the terminating NUL. */
module ShortNames {
  import opened FatBytes

  const DOT: byte := 0x2E
  const SPACE: byte := 0x20

  function Upper(c: byte): byte {
    if 0x61 <= c <= 0x7A then c - 0x20 else c
  }

  function UpperAll(s: seq<byte>): (r: seq<byte>)
    ensures |r| == |s| && forall i :: 0 <= i < |s| ==> r[i] == Upper(s[i])
  {
    seq(|s|, i requires 0 <= i < |s| => Upper(s[i]))
  }

  predicate ValidChar(c: byte) {
    var u := Upper(c);
    0x41 <= u <= 0x5A || 0x30 <= u <= 0x39 || u == 0x5F || u == 0x2D || u == 0x7E
  }

  predicate AllValid(s: seq<byte>) {
    forall i :: 0 <= i < |s| ==> ValidChar(s[i])
  }

  /** Position of the first dot, or the length. */
  function DotAt(name: seq<byte>): (d: nat)
    ensures d <= |name| && (d < |name| ==> name[d] == DOT)
    ensures forall i :: 0 <= i < d ==> name[i] != DOT
  {
    if name == [] then 0
    else if name[0] == DOT then 0
    else
      var d := DotAt(name[1..]);
      assert forall i :: 1 <= i <= d ==> name[i] == name[1..][i - 1];
      1 + d
  }

  function BaseLength(name: seq<byte>): nat {
    if DotAt(name) < 8 then DotAt(name) else 8
  }

  /** Where the extension starts: after the base, and after a dot if one is there. */
  function ExtStart(name: seq<byte>): (p: nat)
    ensures p <= |name|
  {
    var b := BaseLength(name);
    if b < |name| && name[b] == DOT then b + 1 else b
  }

  /** Byte k of the padded 8.3 form. */
  function ShortAt(name: seq<byte>, k: int): byte
    requires 0 <= k < 11
  {
    if k < 8 then if k < BaseLength(name) then Upper(name[k]) else SPACE
    else if ExtStart(name) + k - 8 < |name| then Upper(name[ExtStart(name) + k - 8]) else SPACE
  }

  function ShortName(name: seq<byte>): (r: seq<byte>)
    ensures |r| == 11 && forall k :: 0 <= k < 11 ==> r[k] == ShortAt(name, k)
  {
    seq(11, k requires 0 <= k < 11 => ShortAt(name, k))
  }

  /** The names the checked conversion accepts: 1-8 valid characters, and after a
      dot 1-3 more. */
  predicate Accepted(name: seq<byte>) {
    var d := DotAt(name);
    && 1 <= d <= 8 && AllValid(name[..d])
    && (d < |name| ==> 1 <= |name| - d - 1 <= 3 && AllValid(name[d + 1..]))
  }

  method Blank(out: array<byte>)
    requires out.Length == 11
    modifies out
    ensures forall k :: 0 <= k < 11 ==> out[k] == SPACE
  {
    for i := 0 to 11
      invariant forall k :: 0 <= k < i ==> out[k] == SPACE
    {
      out[i] := SPACE;
    }
  }

  /** make_short_name: never fails, silently drops what does not fit. */
  method MakeShortName(name: seq<byte>, out: array<byte>)
    requires out.Length == 11
    modifies out
    ensures out[..] == ShortName(name)
  {
    Blank(out);
    var p, pos := 0, 0;
    while p < |name| && name[p] != DOT && pos < 8
      invariant 0 <= p == pos <= BaseLength(name)
      invariant forall k :: 0 <= k < pos ==> out[k] == ShortAt(name, k)
      invariant forall k :: pos <= k < 11 ==> out[k] == SPACE
    {
      out[pos] := Upper(name[p]);
      p, pos := p + 1, pos + 1;
    }
    if p < |name| && name[p] == DOT {
      p := p + 1;
    }
    assert p == ExtStart(name);
    pos := 8;
    while p < |name| && pos < 11
      invariant ExtStart(name) <= p <= |name| && pos == 8 + (p - ExtStart(name)) <= 11
      invariant forall k :: 0 <= k < pos ==> out[k] == ShortAt(name, k)
      invariant forall k :: pos <= k < 11 ==> out[k] == SPACE
    {
      out[pos] := Upper(name[p]);
      p, pos := p + 1, pos + 1;
    }
  }

  lemma NotAcceptedAt(name: seq<byte>, p: nat)
    requires p < |name| && !ValidChar(name[p]) && p != DotAt(name)
    ensures !Accepted(name)
  {
    var d := DotAt(name);
    if p < d {
      assert name[..d][p] == name[p];
    } else {
      assert name[d + 1..][p - d - 1] == name[p];
    }
  }

  /** The part after the dot: one to three valid characters, or failure. */
  method CheckedExtension(name: seq<byte>, out: array<byte>) returns (ok: bool)
    requires out.Length == 11 && 1 <= DotAt(name) <= 8 && DotAt(name) < |name| && AllValid(name[..DotAt(name)])
    requires forall k :: 0 <= k < 8 ==> out[k] == ShortAt(name, k)
    requires forall k :: 8 <= k < 11 ==> out[k] == SPACE
    modifies out
    ensures ok == Accepted(name)
    ensures ok ==> forall k :: 0 <= k < 11 ==> out[k] == ShortAt(name, k)
  {
    ghost var d := DotAt(name);
    var p := DotAt(name) + 1;
    var extLen := 0;
    while p < |name|
      invariant d + 1 == ExtStart(name) <= p <= |name| && extLen == p - d - 1 <= 3
      invariant forall k :: 0 <= k < 8 + extLen ==> out[k] == ShortAt(name, k)
      invariant forall k :: 8 + extLen <= k < 11 ==> out[k] == SPACE
      invariant forall k :: d < k < p ==> ValidChar(name[k])
    {
      if extLen >= 3 || name[p] == DOT || !ValidChar(name[p]) {
        if !ValidChar(name[p]) {
          NotAcceptedAt(name, p);
        }
        return false;
      }
      out[8 + extLen] := Upper(name[p]);
      p, extLen := p + 1, extLen + 1;
    }
    ok := extLen != 0;
  }

  /** make_short_name_checked: succeeds exactly on the accepted names, and agrees there. */
  method MakeShortNameChecked(name: seq<byte>, out: array<byte>) returns (ok: bool)
    requires out.Length == 11
    modifies out
    ensures ok == Accepted(name)
    ensures ok ==> out[..] == ShortName(name)
  {
    if name == [] {
      return false;
    }
    Blank(out);
    var p, baseLen := 0, 0;
    ghost var d := DotAt(name);
    while p < |name| && name[p] != DOT
      invariant 0 <= p == baseLen <= 8 && p <= d
      invariant forall k :: 0 <= k < p ==> ValidChar(name[k]) && out[k] == ShortAt(name, k)
      invariant forall k :: p <= k < 11 ==> out[k] == SPACE
      decreases |name| - p
    {
      if baseLen >= 8 || !ValidChar(name[p]) {
        if !ValidChar(name[p]) {
          NotAcceptedAt(name, p);
        }
        return false;
      }
      out[baseLen] := Upper(name[p]);
      p, baseLen := p + 1, baseLen + 1;
    }
    if baseLen == 0 {
      return false;
    }
    assert p == d == BaseLength(name);
    if p < |name| {
      ok := CheckedExtension(name, out);
    } else {
      ok := true;
    }
  }

  // ----- printing -------------------------------------------------------------------

  /** Length of s up to its first space. */
  function Trimmed(s: seq<byte>): (n: nat)
    ensures n <= |s| && (n < |s| ==> s[n] == SPACE) && forall i :: 0 <= i < n ==> s[i] != SPACE
  {
    if s == [] || s[0] == SPACE then 0
    else
      var n := Trimmed(s[1..]);
      assert forall i :: 1 <= i <= n ==> s[i] == s[1..][i - 1];
      1 + n
  }

  function Text(n: seq<byte>): seq<byte>
    requires |n| == 11
  {
    var base, ext := n[..8], n[8..];
    base[..Trimmed(base)] + (if ext[0] != SPACE then [DOT] + ext[..Trimmed(ext)] else [])
  }

  method ShortNameToString(e: Slot) returns (out: seq<byte>)
    ensures out == Text(NameOf(e))
  {
    var n := NameOf(e);
    out := [];
    var i := 0;
    while i < 8 && n[i] != SPACE
      invariant 0 <= i <= 8 && i <= Trimmed(n[..8]) && out == n[..i]
    {
      out := out + [n[i]];
      i := i + 1;
    }
    assert i == Trimmed(n[..8]) && n[..8][..i] == n[..i];
    if n[8] != SPACE {
      out := out + [DOT];
      i := 8;
      while i < 11 && n[i] != SPACE
        invariant 8 <= i <= 11 && i - 8 <= Trimmed(n[8..])
        invariant out == n[..Trimmed(n[..8])] + [DOT] + n[8..i]
      {
        out := out + [n[i]];
        i := i + 1;
      }
      assert i - 8 == Trimmed(n[8..]) && n[8..][..i - 8] == n[8..i];
    }
  }

  lemma {:induction false} TrimmedIs(s: seq<byte>, d: nat)
    requires d <= |s| && (d < |s| ==> s[d] == SPACE) && forall i :: 0 <= i < d ==> s[i] != SPACE
    ensures Trimmed(s) == d
  {
  }

  lemma UpperAllParts(name: seq<byte>, d: nat)
    requires d < |name| && name[d] == DOT
    ensures UpperAll(name) == UpperAll(name[..d]) + [DOT] + UpperAll(name[d + 1..])
  {
    var a, b := UpperAll(name[..d]), UpperAll(name[d + 1..]);
    hide UpperAll;
    forall i | 0 <= i < |name|
      ensures UpperAll(name)[i] == (a + [DOT] + b)[i]
    {
      if i > d {
        assert (a + [DOT] + b)[i] == b[i - d - 1];
      }
    }
  }

  lemma BaseOfShort(name: seq<byte>)
    requires Accepted(name)
    ensures var d := DotAt(name); Trimmed(ShortName(name)[..8]) == d && ShortName(name)[..8][..d] == UpperAll(name[..d])
  {
    var d, n := DotAt(name), ShortName(name);
    assert forall i :: 0 <= i < d ==> ValidChar(name[..d][i]) && n[i] == Upper(name[i]);
    hide ShortName, UpperAll, Accepted;
    TrimmedIs(n[..8], d);
    assert n[..8][..d] == UpperAll(name[..d]);
  }

  lemma ExtOfShort(name: seq<byte>)
    requires Accepted(name) && DotAt(name) < |name|
    ensures var e := name[DotAt(name) + 1..]; var x := ShortName(name)[8..];
            |e| > 0 && Trimmed(x) == |e| && x[..|e|] == UpperAll(e) && x[0] != SPACE
  {
    var e, n := name[DotAt(name) + 1..], ShortName(name);
    assert ExtStart(name) == DotAt(name) + 1;
    forall i | 0 <= i < |e|
      ensures n[8..][i] == Upper(e[i]) && n[8..][i] != SPACE
    {
      assert ValidChar(e[i]) && n[8 + i] == ShortAt(name, 8 + i);
    }
    assert |e| < 3 ==> n[8..][|e|] == ShortAt(name, 8 + |e|) == SPACE;
    hide ShortName, UpperAll, Accepted;
    TrimmedIs(n[8..], |e|);
    assert n[8..][..|e|] == UpperAll(e);
  }

  lemma TextOf(n: seq<byte>, u: seq<byte>, e: seq<byte>)
    requires |n| == 11 && Trimmed(n[..8]) == |u| && n[..8][..|u|] == u
    requires if e == [] then n[8..][0] == SPACE else n[8..][0] != SPACE && Trimmed(n[8..]) == |e| && n[8..][..|e|] == e
    ensures Text(n) == u + (if e == [] then [] else [DOT] + e)
  {
    hide Trimmed;
  }

  lemma TextWithExtension(name: seq<byte>)
    requires Accepted(name) && DotAt(name) < |name|
    ensures Text(ShortName(name)) == UpperAll(name)
  {
    var d, n := DotAt(name), ShortName(name);
    hide *;
    BaseOfShort(name);
    ExtOfShort(name);
    UpperAllParts(name, d);
    TextOf(n, UpperAll(name[..d]), UpperAll(name[d + 1..]));
    assert UpperAll(name[..d]) + ([DOT] + UpperAll(name[d + 1..])) == UpperAll(name);
  }

  lemma TextWithoutExtension(name: seq<byte>)
    requires Accepted(name) && DotAt(name) == |name|
    ensures Text(ShortName(name)) == UpperAll(name)
  {
    var n := ShortName(name);
    assert name[..|name|] == name && n[8..][0] == n[8] == ShortAt(name, 8) == SPACE;
    hide *;
    BaseOfShort(name);
    TextOf(n, UpperAll(name), []);
  }

  /** Printing the short form of an accepted name gives the name back in upper case. */
  lemma TextInvertsShortName(name: seq<byte>)
    requires Accepted(name)
    ensures Text(ShortName(name)) == UpperAll(name)
  {
    if DotAt(name) < |name| {
      TextWithExtension(name);
    } else {
      TextWithoutExtension(name);
    }
  }

  /** An accepted name never looks like an unused or deleted slot. */
  lemma FirstByte(name: seq<byte>)
    requires Accepted(name)
    ensures ShortName(name)[0] != 0x00 && ShortName(name)[0] != 0xE5
  {
    assert ValidChar(name[..DotAt(name)][0]) && ShortName(name)[0] == Upper(name[0]);
  }
}
