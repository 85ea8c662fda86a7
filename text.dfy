/** String operations the scorer relies on, with Python's semantics:
    `str.split(",")`, `str.strip()` and the code-point ordering of `str`
    that pandas uses when it sorts group keys. */
module Text {

  /** Python's `str.isspace()` for one character: the characters that
      `str.strip()` with no argument removes (tab to carriage return, the
      four information separators and the space, NEL, no-break space, the
      ogham space mark, the en quad to the hair space, the line and
      paragraph separators, the narrow no-break space, the medium
      mathematical space and the ideographic space). */
  predicate IsSpace(c: char) {
    var n := c as int;
    || 9 <= n <= 13
    || 28 <= n <= 32
    || n == 0x85 || n == 0xA0 || n == 0x1680
    || 0x2000 <= n <= 0x200A
    || n == 0x2028 || n == 0x2029 || n == 0x202F || n == 0x205F || n == 0x3000
  }

  /** Neither the first nor the last character is whitespace. */
  predicate NoEdgeSpace(s: string) {
    s == [] || (!IsSpace(s[0]) && !IsSpace(s[|s| - 1]))
  }

  /** Drops leading whitespace: the result is the longest suffix of `s`
      that starts with a non-space, or is empty. */
  function TrimLeft(s: string): (r: string)
    ensures |r| <= |s| && r == s[|s| - |r|..]
    ensures forall k :: 0 <= k < |s| - |r| ==> IsSpace(s[k])
    ensures r == [] || !IsSpace(r[0])
  {
    if s != [] && IsSpace(s[0]) then TrimLeft(s[1..]) else s
  }

  /** Drops trailing whitespace: the result is the longest prefix of `s`
      that ends with a non-space, or is empty. */
  function TrimRight(s: string): (r: string)
    ensures |r| <= |s| && r == s[..|r|]
    ensures forall k :: |r| <= k < |s| ==> IsSpace(s[k])
    ensures r == [] || !IsSpace(r[|r| - 1])
  {
    if s != [] && IsSpace(s[|s| - 1]) then TrimRight(s[..|s| - 1]) else s
  }

  /** Python's `str.strip()`: `s` with whitespace removed at both ends.
      `StripDecomposes` and `StripPadded` show it removes exactly the edge
      whitespace and nothing else. */
  function Strip(s: string): (r: string)
    ensures NoEdgeSpace(r)
  {
    TrimRight(TrimLeft(s))
  }

  /** Stripping adds no character. */
  lemma StripInside(s: string, c: char)
    requires c !in s
    ensures c !in Strip(s)
  {
  }

  /** Stripping is idempotent. */
  lemma StripIdempotent(s: string)
    ensures Strip(Strip(s)) == Strip(s)
  {
    StripUnchanged(Strip(s));
  }

  /** A string without edge whitespace is left as it is. */
  lemma StripUnchanged(s: string)
    requires NoEdgeSpace(s)
    ensures Strip(s) == s
  {
    if s != [] {
      assert TrimLeft(s) == s;
      assert TrimRight(s) == s;
    }
  }

  /** Every character is whitespace. */
  predicate AllSpace(s: string) {
    forall k :: 0 <= k < |s| ==> IsSpace(s[k])
  }

  lemma {:induction false} TrimLeftSpaces(l: string, t: string)
    requires AllSpace(l)
    requires t == [] || !IsSpace(t[0])
    ensures TrimLeft(l + t) == t
  {
    if l != [] {
      assert (l + t)[1..] == l[1..] + t;
      TrimLeftSpaces(l[1..], t);
    }
  }

  lemma {:induction false} TrimRightSpaces(t: string, r: string)
    requires AllSpace(r)
    requires t == [] || !IsSpace(t[|t| - 1])
    ensures TrimRight(t + r) == t
  {
    if r != [] {
      var u := r[..|r| - 1];
      assert (t + r)[..|t + r| - 1] == t + u;
      TrimRightSpaces(t, u);
    }
  }

  /** Stripping removes exactly the padding: a string without edge
      whitespace, padded with whitespace on either side, strips back to
      itself. */
  lemma StripPadded(l: string, a: string, r: string)
    requires AllSpace(l) && AllSpace(r) && NoEdgeSpace(a)
    ensures Strip(l + (a + r)) == a
  {
    if a == [] {
      assert l + (a + r) == (l + r) + [];
      TrimLeftSpaces(l + r, []);
    } else {
      TrimLeftSpaces(l, a + r);
      TrimRightSpaces(a, r);
    }
  }

  lemma TrimLeftSplits(s: string)
    ensures var n := |s| - |TrimLeft(s)|; AllSpace(s[..n]) && s == s[..n] + TrimLeft(s)
  {
    var n := |s| - |TrimLeft(s)|;
    assert AllSpace(s[..n]) by {
      forall k | 0 <= k < n
        ensures IsSpace(s[..n][k])
      {
        assert s[..n][k] == s[k];
      }
    }
    assert s == s[..n] + s[n..];
  }

  lemma TrimRightSplits(t: string)
    ensures var n := |TrimRight(t)|; AllSpace(t[n..]) && t == TrimRight(t) + t[n..]
  {
    var n := |TrimRight(t)|;
    assert AllSpace(t[n..]) by {
      forall k | 0 <= k < |t| - n
        ensures IsSpace(t[n..][k])
      {
        assert t[n..][k] == t[n + k];
      }
    }
    assert t == t[..n] + t[n..];
  }

  /** `s` is the stripped string with whitespace on either side. */
  lemma StripDecomposes(s: string)
    ensures exists l, r :: AllSpace(l) && AllSpace(r) && s == l + (Strip(s) + r)
  {
    var t := TrimLeft(s);
    var l := s[..|s| - |t|];
    var u := TrimRight(t);
    var r := t[|u|..];
    assert AllSpace(l) && s == l + t by {
      TrimLeftSplits(s);
    }
    assert AllSpace(r) && t == u + r by {
      TrimRightSplits(t);
    }
    assert Strip(s) == u;
  }

  /** Number of occurrences of `c` in `s`. */
  function Occurrences(s: string, c: char): (n: nat)
    ensures n <= |s|
    ensures n == 0 <==> c !in s
  {
    if s == [] then 0 else (if s[0] == c then 1 else 0) + Occurrences(s[1..], c)
  }

  /** The pieces joined back with commas between them. */
  function Join(parts: seq<string>): string
    requires |parts| >= 1
  {
    if |parts| == 1 then parts[0] else parts[0] + "," + Join(parts[1..])
  }

  /** Python's `s.split(",")`: cuts `s` at every comma. Empty pieces are kept,
      so there is always one piece more than there are commas. */
  function Split(s: string): (r: seq<string>)
    ensures |r| == Occurrences(s, ',') + 1
    ensures forall i :: 0 <= i < |r| ==> ',' !in r[i]
    ensures Join(r) == s
  {
    if s == [] then [""]
    else
      var rest := Split(s[1..]);
      if s[0] == ',' then
        assert s == "," + Join(rest);
        [""] + rest
      else
        JoinExtendFirst(s[0], rest);
        [[s[0]] + rest[0]] + rest[1..]
  }

  /** Putting a character in front of the first piece puts it in front of the join. */
  lemma {:induction false} JoinExtendFirst(c: char, parts: seq<string>)
    requires |parts| >= 1
    ensures Join([[c] + parts[0]] + parts[1..]) == [c] + Join(parts)
  {
    var r := [[c] + parts[0]] + parts[1..];
    assert r[1..] == parts[1..];
    if |parts| > 1 {
      assert Join(r) == ([c] + parts[0]) + "," + Join(parts[1..]);
      assert [c] + Join(parts) == [c] + (parts[0] + "," + Join(parts[1..]));
    }
  }

  /** Splitting at the first comma of `a + "," + t` when `a` has none. */
  lemma {:induction false} SplitAfterPiece(a: string, t: string)
    requires ',' !in a
    ensures Split(a + "," + t) == [a] + Split(t)
  {
    var u := a + "," + t;
    if a == [] {
      assert u[0] == ',' && u[1..] == t;
    } else {
      assert u[0] == a[0] && u[0] != ',' by {
        assert a[0] in a;
      }
      assert u[1..] == a[1..] + "," + t;
      var rest := Split(u[1..]);
      assert rest == [a[1..]] + Split(t) by {
        SplitAfterPiece(a[1..], t);
      }
      assert Split(u) == [[u[0]] + rest[0]] + rest[1..];
      assert [u[0]] + rest[0] == a;
    }
  }

  /** A comma-free string is a single piece. */
  lemma {:induction false} SplitSingle(a: string)
    requires ',' !in a
    ensures Split(a) == [a]
  {
    if a != [] {
      SplitSingle(a[1..]);
    }
  }

  /** Split is the inverse of Join on comma-free pieces: the pieces are
      recovered exactly, empty ones included, in order. */
  lemma {:induction false} SplitJoin(parts: seq<string>)
    requires |parts| >= 1
    requires forall i :: 0 <= i < |parts| ==> ',' !in parts[i]
    ensures Split(Join(parts)) == parts
  {
    if |parts| == 1 {
      SplitSingle(parts[0]);
    } else {
      SplitJoin(parts[1..]);
      SplitAfterPiece(parts[0], Join(parts[1..]));
    }
  }

  /** Python's `<` on `str`: lexicographic by code point, a proper prefix
      coming first. pandas sorts group keys with it. */
  predicate Below(a: string, b: string) {
    if a == [] then b != []
    else if b == [] then false
    else if a[0] != b[0] then a[0] < b[0]
    else Below(a[1..], b[1..])
  }

  lemma {:induction false} BelowIrreflexive(a: string)
    ensures !Below(a, a)
  {
    if a != [] {
      BelowIrreflexive(a[1..]);
    }
  }

  lemma {:induction false} BelowTransitive(a: string, b: string, c: string)
    requires Below(a, b) && Below(b, c)
    ensures Below(a, c)
  {
    if a != [] && b != [] && c != [] && a[0] == b[0] && b[0] == c[0] {
      BelowTransitive(a[1..], b[1..], c[1..]);
    }
  }

  lemma {:induction false} BelowTotal(a: string, b: string)
    requires a != b
    ensures Below(a, b) || Below(b, a)
  {
    if a != [] && b != [] && a[0] == b[0] {
      BelowTotal(a[1..], b[1..]);
    }
  }
}
