/**
 * The parts of Go's `strings` and `path/filepath` packages that the services
 * rely on, over strings of Unicode scalar values.
 */
module Text {

  /** Number of bytes of the UTF-8 encoding of `c`: what Go's `len` counts. */
  function CharWidth(c: char): (w: nat)
    ensures 1 <= w <= 4
    ensures w == 1 <==> c as int < 0x80
  {
    if c as int < 0x80 then 1
    else if c as int < 0x800 then 2
    else if c as int < 0x10000 then 3
    else 4
  }

  /** Go's `len(s)` for a string: its length in UTF-8 bytes. */
  function Utf8Len(s: string): (n: nat)
    ensures n >= |s|
    ensures n == 0 <==> s == []
  {
    if s == [] then 0 else CharWidth(s[0]) + Utf8Len(s[1..])
  }

  /** `len(s) > 1` holds exactly for strings of two or more characters and for one non-ASCII character. */
  lemma {:induction false} LongerThanOneByte(s: string)
    ensures Utf8Len(s) > 1 <==> |s| > 1 || (|s| == 1 && s[0] as int >= 0x80)
  {
    if s != [] {
      assert Utf8Len(s) == CharWidth(s[0]) + Utf8Len(s[1..]);
      if |s| == 1 {
        assert s[1..] == [];
      }
    }
  }

  /**
   * `unicode.ToLower` restricted to what matters when the result is compared
   * with a lower-case ASCII word: A-Z, and the two non-ASCII code points whose
   * lower-case form is ASCII (U+0130 to 'i', U+212A KELVIN SIGN to 'k').
   */
  function LowerChar(c: char): (l: char)
    ensures 'A' <= c <= 'Z' ==> l as int == c as int + 32
    ensures !('A' <= c <= 'Z') && c != 'İ' && c != 'K' ==> l == c
  {
    if 'A' <= c <= 'Z' then (c as int + 32) as char
    else if c == 'İ' then 'i'
    else if c == 'K' then 'k'
    else c
  }

  /** `strings.ToLower`, character by character. */
  function ToLower(s: string): (r: string)
    ensures |r| == |s|
    ensures forall i :: 0 <= i < |s| ==> r[i] == LowerChar(s[i])
  {
    if s == [] then [] else [LowerChar(s[0])] + ToLower(s[1..])
  }

  /** `s` lower-cases to `l` when it does so character by character. */
  lemma LowersTo(s: string, l: string)
    requires |s| == |l| && forall i :: 0 <= i < |s| ==> LowerChar(s[i]) == l[i]
    ensures ToLower(s) == l
  {
  }

  /** Lower-casing twice changes nothing more than lower-casing once. */
  lemma ToLowerIdempotent(s: string)
    ensures ToLower(ToLower(s)) == ToLower(s)
  {
    var once := ToLower(s);
    var twice := ToLower(once);
    forall i | 0 <= i < |s| ensures twice[i] == once[i] {
      assert twice[i] == LowerChar(LowerChar(s[i]));
    }
  }

  /** `strings.Contains(s, sub)`: `sub` occurs in `s` at some offset. */
  predicate Contains(s: string, sub: string) {
    exists k | 0 <= k <= |s| :: OccursAt(s, sub, k)
  }

  /** `sub` occurs in `s` starting at offset `k`. */
  predicate OccursAt(s: string, sub: string, k: int) {
    0 <= k <= |s| - |sub| && s[k..k + |sub|] == sub
  }

  /** The empty string occurs in every string, and every string occurs in itself. */
  lemma ContainsTrivial(s: string)
    ensures Contains(s, "")
    ensures Contains(s, s)
  {
    assert OccursAt(s, "", 0);
    assert s[0..0 + |s|] == s;
    assert OccursAt(s, s, 0);
  }

  /**
   * `strings.Split(s, string(sep))`: the pieces of `s` between occurrences of
   * `sep`; the empty string gives one empty piece.
   */
  function Split(s: string, sep: char): (parts: seq<string>)
    ensures |parts| >= 1
    ensures forall p :: p in parts ==> sep !in p
    ensures |parts| > 1 <==> sep in s
    decreases |s|
  {
    if sep !in s then [s]
    else
      var k := IndexOf(s, sep);
      [s[..k]] + Split(s[k + 1..], sep)
  }

  /** Position of the first `c` in `s`. */
  function IndexOf(s: string, c: char): (k: nat)
    requires c in s
    ensures k < |s| && s[k] == c && c !in s[..k]
  {
    if s[0] == c then 0 else 1 + IndexOf(s[1..], c)
  }

  /** Joining the pieces of `Split` back together with `sep` gives `s` again. */
  function JoinWith(parts: seq<string>, sep: char): string
    requires |parts| >= 1
  {
    if |parts| == 1 then parts[0] else parts[0] + [sep] + JoinWith(parts[1..], sep)
  }

  lemma {:induction false} SplitJoin(s: string, sep: char)
    ensures JoinWith(Split(s, sep), sep) == s
    decreases |s|
  {
    if sep in s {
      var k := IndexOf(s, sep);
      SplitJoin(s[k + 1..], sep);
      assert s == s[..k] + [sep] + s[k + 1..];
    }
  }

  /**
   * `filepath.Ext(path)`: the suffix from the last '.' of the last path
   * element, or "" when that element has no '.'.
   */
  function Ext(path: string): (e: string)
    ensures e == [] || (e[0] == '.' && '/' !in e)
    ensures |e| <= |path| && path[|path| - |e|..] == e
    ensures e != [] ==> '.' !in e[1..]
    ensures e == [] ==> forall j :: 0 <= j < |path| && InLastElement(path, j) ==> path[j] != '.'
  {
    ExtFrom(path, |path|)
  }

  /** Position `j` lies in the last '/'-separated element of `path`. */
  ghost predicate InLastElement(path: string, j: nat)
    requires j <= |path|
  {
    forall k :: j <= k < |path| ==> path[k] != '/'
  }

  /** Scans `path[..i]` backwards the way `filepath.Ext` does; `path[i..]` holds no separator and no '.'. */
  function ExtFrom(path: string, i: nat): (e: string)
    requires i <= |path| && forall k :: i <= k < |path| ==> path[k] != '/' && path[k] != '.'
    ensures e == [] || (e[0] == '.' && '/' !in e)
    ensures |e| <= |path| && path[|path| - |e|..] == e
    ensures e != [] ==> '.' !in e[1..]
    ensures e == [] ==> forall j :: 0 <= j < |path| && InLastElement(path, j) ==> path[j] != '.'
    decreases i
  {
    if i == 0 || path[i - 1] == '/' then []
    else if path[i - 1] == '.' then
      assert path[i - 1..][1..] == path[i..];
      path[i - 1..]
    else ExtFrom(path, i - 1)
  }

  /** `strings.TrimSuffix(name, filepath.Ext(name))`: the name without its extension. */
  function Stem(name: string): (s: string)
    ensures name == s + Ext(name)
  {
    name[..|name| - |Ext(name)|]
  }

  /**
   * `filepath.Clean`: the shortest lexically equivalent path. Empty and "."
   * elements are dropped, ".." removes the element before it (or is dropped
   * at the root, or kept at the front of a relative path), and the empty
   * result is ".".
   */
  function Clean(path: string): string {
    if path == [] then "."
    else
      var rooted := path[0] == '/';
      var kept := Resolve(Split(path, '/'), [], rooted);
      var out := (if rooted then "/" else "") + (if kept == [] then "" else JoinWith(kept, '/'));
      if out == [] then "." else out
  }

  /** Applies the elements of a path in turn to the stack of elements kept so far. */
  function Resolve(elems: seq<string>, kept: seq<string>, rooted: bool): seq<string>
    decreases |elems|
  {
    if elems == [] then kept
    else if elems[0] == "" || elems[0] == "." then Resolve(elems[1..], kept, rooted)
    else if elems[0] == ".." then
      if kept != [] && kept[|kept| - 1] != ".." then Resolve(elems[1..], kept[..|kept| - 1], rooted)
      else if rooted then Resolve(elems[1..], kept, rooted)
      else Resolve(elems[1..], kept + [".."], rooted)
    else Resolve(elems[1..], kept + [elems[0]], rooted)
  }

  /** `filepath.Join(dir, name)`: the non-empty arguments joined by '/' and cleaned. */
  function Join(dir: string, name: string): string {
    if dir != [] then Clean(dir + "/" + name)
    else if name != [] then Clean(name)
    else ""
  }

  /** `Split` cuts at the first separator. */
  lemma SplitAt(s: string, sep: char, k: nat)
    requires k < |s| && s[k] == sep && sep !in s[..k]
    ensures Split(s, sep) == [s[..k]] + Split(s[k + 1..], sep)
  {
    assert IndexOf(s, sep) == k;
  }

  /** A path that starts with the separator splits into "" and the pieces after it. */
  lemma SplitLeading(s: string, sep: char)
    requires |s| > 0 && s[0] == sep
    ensures Split(s, sep) == [""] + Split(s[1..], sep)
  {
    SplitAt(s, sep, 0);
  }

  /** A name without separators followed by one is cut there. */
  lemma SplitAfterName(d: string, rest: string)
    requires '/' !in d
    ensures Split(d + "/" + rest, '/') == [d] + Split(rest, '/')
  {
    var q := d + "/" + rest;
    assert q[|d|] == '/' && q[..|d|] == d && q[|d| + 1..] == rest;
    SplitAt(q, '/', |d|);
  }

  /** The pieces of "../x" for a plain name `x`. */
  lemma SplitDots(x: string)
    requires '/' !in x
    ensures var parts := Split("../" + x, '/');
      |parts| == 2 && parts[0] == ".." && parts[1] == x
  {
    var r := "../" + x;
    assert r == ".." + "/" + x;
    SplitAfterName("..", x);
    assert Split(x, '/') == [x];
  }

  /** A rooted path splits into "" and the pieces of the rest. */
  lemma SplitRooted(q: string)
    ensures Split("/" + q, '/') == [""] + Split(q, '/')
  {
    var p := "/" + q;
    assert p[1..] == q;
    SplitLeading(p, '/');
  }

  /** Index arithmetic on the pieces of "/d/../x", kept apart from `Split`. */
  lemma RootedPieces(sp: seq<string>, sq: seq<string>, sr: seq<string>, d: string, x: string)
    requires sp == [""] + sq && sq == [d] + sr
    requires |sr| == 2 && sr[0] == ".." && sr[1] == x
    ensures |sp| == 4 && sp[0] == "" && sp[1] == d && sp[2] == ".." && sp[3] == x
  {
  }

  /** The pieces of "/d/../x" for plain names `d` and `x`. */
  lemma SplitEscape(d: string, x: string)
    requires '/' !in d && '/' !in x
    ensures var parts := Split("/" + (d + "/" + ("../" + x)), '/');
      |parts| == 4 && parts[0] == "" && parts[1] == d && parts[2] == ".." && parts[3] == x
  {
    var r := "../" + x;
    var q := d + "/" + r;
    SplitDots(x);
    SplitAfterName(d, r);
    SplitRooted(q);
    RootedPieces(Split("/" + q, '/'), Split(q, '/'), Split(r, '/'), d, x);
  }

  /** The elements of "/d/../x" resolve to just `x`. */
  lemma ResolveEscape(elems: seq<string>, d: string, x: string)
    requires |elems| == 4 && elems[0] == "" && elems[1] == d && elems[2] == ".." && elems[3] == x
    requires d != [] && x != [] && d != "." && d != ".." && x != "." && x != ".."
    ensures Resolve(elems, [], true) == [x]
  {
    var e1 := elems[1..];
    var e2 := e1[1..];
    var e3 := e2[1..];
    assert e1[0] == d && e2[0] == ".." && e3[0] == x && e3[1..] == [];
    assert Resolve(elems, [], true) == Resolve(e1, [], true);
    assert Resolve(e1, [], true) == Resolve(e2, [d], true);
    assert [d][..0] == [];
    assert Resolve(e2, [d], true) == Resolve(e3, [], true);
    assert Resolve(e3, [], true) == Resolve([], [x], true);
  }

  /** A rooted path whose elements resolve to the single name `x` cleans to "/x". */
  lemma CleanToSingle(p: string, x: string)
    requires p != [] && p[0] == '/' && Resolve(Split(p, '/'), [], true) == [x]
    ensures Clean(p) == "/" + x
  {
    assert JoinWith([x], '/') == x;
  }

  /**
   * `Join` keeps no name inside `dir`: joining "/d" with "../x" climbs out
   * of "/d" and gives "/x", for any plain names `d` and `x`.
   */
  lemma JoinEscapes(d: string, x: string)
    requires d != [] && x != [] && '/' !in d && '/' !in x
    requires d != "." && d != ".." && x != "." && x != ".."
    ensures Join("/" + d, "../" + x) == "/" + x
  {
    var p := "/" + (d + "/" + ("../" + x));
    assert ("/" + d) + "/" + ("../" + x) == p;
    assert Join("/" + d, "../" + x) == Clean(p);
    assert p[0] == '/';
    SplitEscape(d, x);
    ResolveEscape(Split(p, '/'), d, x);
    CleanToSingle(p, x);
  }
}
