// The parts of Go's `strings`, `unicode` and string-to-bytes conversion that
// the package relies on, over Dafny strings (sequences of Unicode scalar values).
module GoStrings {
  import opened Outcomes

  /** Go's unicode.IsSpace: the Unicode White_Space characters. */
  predicate IsSpace(c: char)
  {
    var cp := c as int;
    (9 <= cp <= 13) || cp == 0x20 || cp == 0x85 || cp == 0xA0 || cp == 0x1680
    || (0x2000 <= cp <= 0x200A) || cp == 0x2028 || cp == 0x2029 || cp == 0x202F
    || cp == 0x205F || cp == 0x3000
  }

  predicate NoSpace(s: string)
  {
    forall i :: 0 <= i < |s| ==> !IsSpace(s[i])
  }

  predicate AllSpace(s: string)
  {
    forall i :: 0 <= i < |s| ==> IsSpace(s[i])
  }

  /** The longest prefix of s without white space. */
  function Word(s: string): (r: string)
    ensures r <= s
    ensures NoSpace(r)
    ensures |r| < |s| ==> IsSpace(s[|r|])
  {
    if s == [] || IsSpace(s[0]) then [] else [s[0]] + Word(s[1..])
  }

  /** Go's strings.Fields: the maximal runs of non-white-space characters of s, in order. */
  function Fields(s: string): (r: seq<string>)
    ensures forall i :: 0 <= i < |r| ==> r[i] != [] && NoSpace(r[i])
    ensures r == [] <==> AllSpace(s)
    decreases |s|
  {
    if s == [] then []
    else if IsSpace(s[0]) then
      var r := Fields(s[1..]);
      assert AllSpace(s) <==> AllSpace(s[1..]) by {
        if AllSpace(s[1..]) {
          assert forall i :: 1 <= i < |s| ==> s[i] == s[1..][i - 1];
        }
      }
      r
    else
      var w := Word(s);
      var rest := Fields(s[|w|..]);
      [w] + rest
  }

  /** The longest space-free prefix of w + rest is w when rest starts with a space or is empty. */
  lemma {:induction false} WordOf(w: string, rest: string)
    requires NoSpace(w)
    requires rest == [] || IsSpace(rest[0])
    ensures Word(w + rest) == w
  {
    if w != [] {
      assert (w + rest)[0] == w[0];
      assert (w + rest)[1..] == w[1..] + rest;
      WordOf(w[1..], rest);
      assert [w[0]] + w[1..] == w;
    } else {
      assert w + rest == rest;
    }
  }

  /**
   * The first field of a line: after leading white space, the first run of
   * non-white-space characters, ended by white space or by the end of the line.
   */
  lemma {:induction false} FirstField(lead: string, w: string, rest: string)
    requires AllSpace(lead)
    requires w != [] && NoSpace(w)
    requires rest == [] || IsSpace(rest[0])
    ensures Fields(lead + w + rest) != [] && Fields(lead + w + rest)[0] == w
  {
    var s := lead + w + rest;
    if lead == [] {
      assert s == w + rest;
      WordOf(w, rest);
    } else {
      assert s[0] == lead[0];
      assert s[1..] == lead[1..] + w + rest;
      FirstField(lead[1..], w, rest);
    }
  }

  /** The index of the first occurrence of c in s, |s| when there is none. */
  function IndexOf(s: string, c: char): (i: nat)
    ensures i <= |s|
    ensures c !in s[..i]
    ensures i < |s| ==> s[i] == c
  {
    if s == [] then 0
    else if s[0] == c then 0
    else
      var j := IndexOf(s[1..], c);
      assert s[..j + 1] == [s[0]] + s[1..][..j];
      j + 1
  }

  /** Go's strings.Split(s, string(sep)): the pieces of s between occurrences of sep. */
  function Split(s: string, sep: char): (r: seq<string>)
    ensures |r| >= 1
    ensures forall i :: 0 <= i < |r| ==> sep !in r[i]
    decreases |s|
  {
    var i := IndexOf(s, sep);
    if i == |s| then
      assert s[..i] == s;
      [s]
    else
      [s[..i]] + Split(s[i + 1..], sep)
  }

  /** Go's strings.Join(pieces, string(sep)). */
  function Join(pieces: seq<string>, sep: char): string
  {
    if pieces == [] then []
    else if |pieces| == 1 then pieces[0]
    else pieces[0] + [sep] + Join(pieces[1..], sep)
  }

  /** Joining the pieces of a split gives back the original text. */
  lemma {:induction false} JoinSplit(s: string, sep: char)
    ensures Join(Split(s, sep), sep) == s
    decreases |s|
  {
    var i := IndexOf(s, sep);
    if i == |s| {
      assert s[..i] == s;
      assert Split(s, sep) == [s];
    } else {
      var tail := Split(s[i + 1..], sep);
      assert Split(s, sep) == [s[..i]] + tail;
      JoinSplit(s[i + 1..], sep);
      JoinCons(s[..i], tail, sep);
      assert s == s[..i] + [sep] + s[i + 1..];
    }
  }

  /** Joining a first piece before at least one more. */
  lemma JoinCons(p: string, tail: seq<string>, sep: char)
    requires |tail| >= 1
    ensures Join([p] + tail, sep) == p + [sep] + Join(tail, sep)
  {
    assert ([p] + tail)[1..] == tail;
  }

  /** Splitting a join of sep-free pieces gives back the pieces. */
  lemma {:induction false} SplitJoin(pieces: seq<string>, sep: char)
    requires |pieces| >= 1
    requires forall i :: 0 <= i < |pieces| ==> sep !in pieces[i]
    ensures Split(Join(pieces, sep), sep) == pieces
    decreases |pieces|
  {
    var p := pieces[0];
    IndexOfAbsent(p, sep);
    if |pieces| == 1 {
      assert Join(pieces, sep) == p;
      assert p[..|p|] == p;
    } else {
      var rest := Join(pieces[1..], sep);
      var s := p + [sep] + rest;
      assert Join(pieces, sep) == s;
      IndexOfAt(p, sep, rest);
      assert s[..|p|] == p;
      assert s[|p| + 1..] == rest;
      SplitJoin(pieces[1..], sep);
      assert pieces == [p] + pieces[1..];
    }
  }

  lemma IndexOfAbsent(s: string, c: char)
    requires c !in s
    ensures IndexOf(s, c) == |s|
  {
  }

  lemma IndexOfAt(p: string, c: char, rest: string)
    requires c !in p
    ensures IndexOf(p + [c] + rest, c) == |p|
  {
    var s := p + [c] + rest;
    assert s[|p|] == c;
    assert s[..|p|] == p;
  }

  /** The text before the first space of s: Go's strings.Split(s, " ")[0]. */
  function FirstToken(s: string): (r: string)
    ensures r <= s
    ensures ' ' !in r
    ensures |r| < |s| ==> s[|r|] == ' '
  {
    Split(s, ' ')[0]
  }

  /** The first token is the only prefix without a space that is followed by a space or the end of s. */
  lemma FirstTokenUnique(s: string, t: string)
    requires t <= s && ' ' !in t
    requires |t| < |s| ==> s[|t|] == ' '
    ensures FirstToken(s) == t
  {
  }

  /** A text without a space is its own first token. */
  lemma FirstTokenOfSpaceFree(s: string)
    requires ' ' !in s
    ensures FirstToken(s) == s
  {
    FirstTokenUnique(s, s);
  }

  /** A UTF-8 continuation byte carrying the low six bits of x. */
  function Continuation(x: nat): (r: byte)
    ensures 0x80 <= r as int < 0xC0
  {
    (0x80 + x % 0x40) as byte
  }

  /** The UTF-8 encoding of one character. */
  function EncodeChar(c: char): (r: Bytes)
    ensures 1 <= |r| <= 4
    ensures |r| == 1 <==> (c as int) < 0x80
    ensures |r| == 1 ==> r[0] as int == c as int
    ensures |r| > 1 ==> forall i :: 0 <= i < |r| ==> r[i] as int >= 0x80
  {
    var cp := c as int;
    if cp < 0x80 then [AsciiByte(cp)] else EncodeWide(cp)
  }

  /** The one-byte UTF-8 form of a code point below 0x80. */
  function AsciiByte(cp: int): (r: byte)
    requires 0 <= cp < 0x80
    ensures r as int == cp
  {
    cp as byte
  }

  /** The two-, three- or four-byte UTF-8 form of a code point of at least 0x80. */
  function EncodeWide(cp: int): (r: Bytes)
    requires 0x80 <= cp <= 0x10FFFF
    ensures 2 <= |r| <= 4
    ensures forall i :: 0 <= i < |r| ==> r[i] as int >= 0x80
  {
    if cp < 0x800 then
      var lead := cp / 0x40;
      assert 2 <= lead < 0x20;
      [(0xC0 + lead) as byte, Continuation(cp)]
    else if cp < 0x10000 then
      var lead := cp / 0x1000;
      assert lead < 0x10;
      [(0xE0 + lead) as byte, Continuation(cp / 0x40), Continuation(cp)]
    else
      var lead := cp / 0x40000;
      assert lead <= 4;
      [(0xF0 + lead) as byte, Continuation(cp / 0x1000), Continuation(cp / 0x40), Continuation(cp)]
  }

  /** The bytes of a Go string: the UTF-8 encoding of its characters. */
  function Utf8(s: string): (r: Bytes)
    ensures |r| >= |s|
  {
    if s == [] then [] else EncodeChar(s[0]) + Utf8(s[1..])
  }

  /** A string has a NUL byte exactly when it has a NUL character. */
  lemma {:induction false} Utf8Nul(s: string)
    ensures 0 in Utf8(s) <==> '\0' in s
  {
    if s != [] {
      Utf8Nul(s[1..]);
      var e := EncodeChar(s[0]);
      assert Utf8(s) == e + Utf8(s[1..]);
      if s[0] == '\0' {
        assert Utf8(s)[0] == 0;
      } else {
        assert 0 !in e by {
          forall i | 0 <= i < |e| ensures e[i] != 0 { }
        }
        assert s == [s[0]] + s[1..];
      }
    }
  }

  /** An ASCII string has one byte per character, equal to the character's code. */
  lemma {:induction false} Utf8Ascii(s: string)
    requires forall i :: 0 <= i < |s| ==> (s[i] as int) < 0x80
    ensures |Utf8(s)| == |s|
    ensures forall i :: 0 <= i < |s| ==> Utf8(s)[i] as int == s[i] as int
  {
    if s != [] {
      Utf8Ascii(s[1..]);
      assert Utf8(s) == EncodeChar(s[0]) + Utf8(s[1..]);
    }
  }
}
