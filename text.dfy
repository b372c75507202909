/** The JavaScript string built-ins the normaliser relies on, stated over
    `string` (a sequence of Unicode scalar values):
    - the `\s` character class and `String.prototype.trim`,
    - `startsWith`,
    - `replace` with the anchored pattern `^M\s*` for a literal marker M,
    - `split` on a single separator character and its inverse, `join`.
 */
module Text {

  /** JavaScript's `\s`, which is also the set `trim` removes: the
      WhiteSpace and LineTerminator productions of ECMAScript. */
  const WsChars: set<char> := {
    '\t', '\n', '\U{B}', '\U{C}', '\r', ' ', '\U{A0}', '\U{1680}',
    '\U{2000}', '\U{2001}', '\U{2002}', '\U{2003}', '\U{2004}', '\U{2005}',
    '\U{2006}', '\U{2007}', '\U{2008}', '\U{2009}', '\U{200A}',
    '\U{2028}', '\U{2029}', '\U{202F}', '\U{205F}', '\U{3000}', '\U{FEFF}'
  }

  predicate IsWs(c: char) {
    c in WsChars
  }

  predicate AllWs(s: string) {
    forall k :: 0 <= k < |s| ==> IsWs(s[k])
  }

  /** No whitespace at either end: what `trim` promises of its result. */
  predicate Trimmed(t: string) {
    t == [] || (!IsWs(t[0]) && !IsWs(t[|t| - 1]))
  }

  predicate StartsWith(s: string, p: string) {
    |p| <= |s| && s[..|p|] == p
  }

  /** `s.startsWith(p)` holds exactly when s is p followed by something. */
  lemma StartsWithPrefix(s: string, p: string, t: string)
    ensures StartsWith(p + t, p)
    ensures StartsWith(s, p) ==> s == p + s[|p|..]
  {
    assert (p + t)[..|p|] == p;
    if StartsWith(s, p) {
      assert s == s[..|p|] + s[|p|..];
    }
  }

  /** Drops the longest all-whitespace prefix (what `\s*` matches at the start). */
  function TrimStart(s: string): (r: string)
    ensures |r| <= |s|
    ensures r == [] || !IsWs(r[0])
  {
    if s != [] && IsWs(s[0]) then TrimStart(s[1..]) else s
  }

  /** What `TrimStart` removes is a whitespace prefix. */
  lemma {:induction false} TrimStartIsSuffix(s: string)
    ensures TrimStart(s) == s[|s| - |TrimStart(s)|..]
    ensures AllWs(s[..|s| - |TrimStart(s)|])
    decreases |s|
  {
    if s != [] && IsWs(s[0]) {
      TrimStartIsSuffix(s[1..]);
      var n := |s| - |TrimStart(s)|;
      assert s[1..][..n - 1] == s[1..n];
      assert forall k :: 1 <= k < n ==> s[k] == s[1..][..n - 1][k - 1];
    }
  }

  /** Drops the longest all-whitespace suffix. */
  function TrimEnd(s: string): (r: string)
    ensures |r| <= |s|
    ensures r == [] || !IsWs(r[|r| - 1])
  {
    if s != [] && IsWs(s[|s| - 1]) then TrimEnd(s[..|s| - 1]) else s
  }

  /** What `TrimEnd` removes is a whitespace suffix. */
  lemma {:induction false} TrimEndIsPrefix(s: string)
    ensures TrimEnd(s) == s[..|TrimEnd(s)|]
    ensures AllWs(s[|TrimEnd(s)|..])
    decreases |s|
  {
    if s != [] && IsWs(s[|s| - 1]) {
      var init := s[..|s| - 1];
      TrimEndIsPrefix(init);
      var n := |TrimEnd(s)|;
      assert init[..n] == s[..n];
      assert forall k :: n <= k < |s| - 1 ==> s[k] == init[n..][k - n];
    }
  }

  /** `String.prototype.trim`. */
  function Trim(s: string): (r: string)
    ensures |r| <= |s|
    ensures Trimmed(r)
  {
    var t := TrimStart(s);
    var r := TrimEnd(t);
    TrimEndIsPrefix(t);
    assert r != [] ==> r[0] == t[0];
    r
  }

  /** `s.replace` with the anchored pattern `^M\s*` and replacement `''`:
      the marker M at the very start, together with the whitespace after
      it, is removed; otherwise `s` is unchanged. */
  function StripMarker(s: string, marker: string): (r: string)
    ensures StartsWith(s, marker) ==> |r| <= |s| - |marker|
    ensures !StartsWith(s, marker) ==> r == s
  {
    if StartsWith(s, marker) then TrimStart(s[|marker|..]) else s
  }

  /** The same replacement followed by `.trim()`: the shape of both cleaners. */
  function StripAndTrim(s: string, marker: string): (r: string)
    ensures Trimmed(r)
    ensures |r| <= |s|
    ensures StartsWith(s, marker) ==> |r| <= |s| - |marker|
  {
    Trim(StripMarker(s, marker))
  }

  // ---------------------------------------------------------------------
  // trim: a reference characterisation

  lemma {:induction false} TrimStartOfWsPrefix(w: string, x: string)
    requires AllWs(w)
    requires x == [] || !IsWs(x[0])
    ensures TrimStart(w + x) == x
    decreases |w|
  {
    if w != [] {
      assert (w + x)[1..] == w[1..] + x;
      TrimStartOfWsPrefix(w[1..], x);
    } else {
      assert w + x == x;
    }
  }

  lemma {:induction false} TrimEndOfWsSuffix(x: string, w: string)
    requires AllWs(w)
    requires x == [] || !IsWs(x[|x| - 1])
    ensures TrimEnd(x + w) == x
    decreases |w|
  {
    if w != [] {
      assert (x + w)[..|x + w| - 1] == x + w[..|w| - 1];
      TrimEndOfWsSuffix(x, w[..|w| - 1]);
    } else {
      assert x + w == x;
    }
  }

  /** Trim is determined by its contract: whenever `s` is some whitespace,
      then a trimmed `t`, then some whitespace, `Trim(s)` is that `t`. */
  lemma TrimUnique(w1: string, t: string, w2: string)
    requires AllWs(w1) && AllWs(w2) && Trimmed(t)
    ensures Trim(w1 + t + w2) == t
  {
    if t == [] {
      assert w1 + t + w2 == w1 + w2;
      assert AllWs(w1 + w2);
      TrimStartOfWsPrefix(w1 + w2, []);
      assert w1 + w2 + [] == w1 + w2;
    } else {
      assert w1 + t + w2 == w1 + (t + w2);
      TrimStartOfWsPrefix(w1, t + w2);
      TrimEndOfWsSuffix(t, w2);
    }
  }

  /** Conversely, every string splits as whitespace, `Trim(s)`, whitespace. */
  lemma TrimDecomposes(s: string)
    ensures exists i, j :: 0 <= i <= j <= |s| && AllWs(s[..i]) && AllWs(s[j..]) && Trim(s) == s[i..j]
  {
    var t := TrimStart(s);
    TrimStartIsSuffix(s);
    TrimEndIsPrefix(t);
    var i := |s| - |t|;
    var j := i + |TrimEnd(t)|;
    assert s[i..] == t;
    assert s[i..j] == t[..|TrimEnd(t)|];
    assert s[j..] == t[|TrimEnd(t)|..];
  }

  /** The cleaner on a marked string: marker, whitespace, a trimmed body,
      whitespace gives exactly the body. */
  lemma StripAndTrimMarked(marker: string, w1: string, t: string, w2: string)
    requires AllWs(w1) && AllWs(w2) && Trimmed(t)
    ensures StripAndTrim(marker + w1 + t + w2, marker) == t
  {
    var s := marker + w1 + t + w2;
    assert s[..|marker|] == marker;
    assert s[|marker|..] == w1 + t + w2;
    TrimStartThenTrim(w1 + t + w2);
    TrimUnique(w1, t, w2);
  }

  lemma TrimStartThenTrim(s: string)
    ensures Trim(TrimStart(s)) == Trim(s)
  {
    var t := TrimStart(s);
    assert TrimStart(t) == t;
  }

  // ---------------------------------------------------------------------
  // split and join on one separator character

  /** `s.split(sep)` for a one-character separator: always at least one
      piece, and no piece contains the separator. */
  function Split(s: string, sep: char): (r: seq<string>)
    ensures |r| >= 1
    ensures forall k :: 0 <= k < |r| ==> sep !in r[k]
    decreases |s|
  {
    if s == [] then [""]
    else
      var rest := Split(s[1..], sep);
      if s[0] == sep then [""] + rest
      else [[s[0]] + rest[0]] + rest[1..]
  }

  /** `parts.join(sep)`: the empty list joins to the empty string. */
  function Join(parts: seq<string>, sep: string): string
    decreases |parts|
  {
    if parts == [] then ""
    else if |parts| == 1 then parts[0]
    else parts[0] + sep + Join(parts[1..], sep)
  }

  lemma {:induction false} SplitJoin(s: string, sep: char)
    ensures Join(Split(s, sep), [sep]) == s
    decreases |s|
  {
    if s != [] {
      SplitJoin(s[1..], sep);
      var rest := Split(s[1..], sep);
      if s[0] != sep {
        var r := Split(s, sep);
        assert r[0] == [s[0]] + rest[0] && r[1..] == rest[1..];
        if |rest| == 1 {
          assert s == [s[0]] + s[1..];
        } else {
          assert Join(rest, [sep]) == rest[0] + [sep] + Join(rest[1..], [sep]);
          assert s == [s[0]] + s[1..];
        }
      } else {
        assert s == [sep] + s[1..];
      }
    }
  }

  lemma {:induction false} SplitNoSep(p: string, sep: char)
    requires sep !in p
    ensures Split(p, sep) == [p]
    decreases |p|
  {
    if p != [] {
      SplitNoSep(p[1..], sep);
      assert p == [p[0]] + p[1..];
    }
  }

  lemma {:induction false} SplitAfterPiece(p: string, rest: string, sep: char)
    requires sep !in p
    ensures Split(p + [sep] + rest, sep) == [p] + Split(rest, sep)
    decreases |p|
  {
    var s := p + [sep] + rest;
    if p == [] {
      assert s == [sep] + rest;
      assert s[1..] == rest;
    } else {
      assert s[1..] == p[1..] + [sep] + rest;
      SplitAfterPiece(p[1..], rest, sep);
      assert p == [p[0]] + p[1..];
    }
  }

  /** Splitting undoes joining pieces that do not contain the separator. */
  lemma {:induction false} JoinSplit(parts: seq<string>, sep: char)
    requires |parts| >= 1
    requires forall k :: 0 <= k < |parts| ==> sep !in parts[k]
    ensures Split(Join(parts, [sep]), sep) == parts
    decreases |parts|
  {
    if |parts| == 1 {
      SplitNoSep(parts[0], sep);
    } else {
      JoinSplit(parts[1..], sep);
      SplitAfterPiece(parts[0], Join(parts[1..], [sep]), sep);
      assert parts == [parts[0]] + parts[1..];
    }
  }

  /** Joining two non-empty lists of pieces is joining each and putting one
      separator between the results. */
  lemma {:induction false} JoinAppend(a: seq<string>, b: seq<string>, sep: string)
    requires a != [] && b != []
    ensures Join(a + b, sep) == Join(a, sep) + sep + Join(b, sep)
    decreases |a|
  {
    if |a| == 1 {
      assert (a + b)[1..] == b;
    } else {
      assert (a + b)[1..] == a[1..] + b;
      JoinAppend(a[1..], b, sep);
    }
  }

  /** Splitting at one separator splits each side on its own: the last piece of
      the left side and the first piece of the right side stay apart. */
  lemma {:induction false} SplitConcat(x: string, z: string, sep: char)
    ensures Split(x + [sep] + z, sep) == Split(x, sep) + Split(z, sep)
    decreases |x|
  {
    if x == [] {
      assert x + [sep] + z == [sep] + z;
      SplitCons(sep, z, sep);
    } else {
      var c, t := x[0], x[1..];
      assert x == [c] + t;
      assert x + [sep] + z == [c] + (t + [sep] + z);
      SplitConcat(t, z, sep);
      SplitCons(c, t + [sep] + z, sep);
      SplitCons(c, t, sep);
      ConsPieces(c, Split(t, sep), Split(z, sep), c == sep);
    }
  }

  /** One step of `Split`. */
  lemma SplitCons(c: char, t: string, sep: char)
    ensures Split([c] + t, sep)
         == if c == sep then [""] + Split(t, sep)
            else [[c] + Split(t, sep)[0]] + Split(t, sep)[1..]
  {
    assert ([c] + t)[1..] == t;
  }

  /** Putting a character in front of the first piece, or a new empty piece
      in front, commutes with appending more pieces. */
  lemma ConsPieces(c: char, left: seq<string>, right: seq<string>, newPiece: bool)
    requires |left| >= 1
    ensures (if newPiece then [""] + (left + right) else [[c] + (left + right)[0]] + (left + right)[1..])
         == (if newPiece then [""] + left else [[c] + left[0]] + left[1..]) + right
  {
    if !newPiece {
      assert (left + right)[1..] == left[1..] + right;
    }
  }
}
