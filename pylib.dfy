/**
 * The pieces of the Python standard library whose behaviour the judge relies
 * on, written out as functions: `bytes.strip()`, `os.path.splitext`,
 * `str.format` with automatically numbered fields, and list indexing with
 * negative indices.
 */
module PyLib {
  import opened Wrappers

  // ---------------------------------------------------------------------------
  // bytes.strip(): removes leading and trailing ASCII whitespace
  // ---------------------------------------------------------------------------

  /** The ASCII whitespace set of `bytes.isspace`: space, \t, \n, \r, \x0b, \x0c. */
  predicate IsSpace(c: char)
  {
    c == ' ' || c == '\t' || c == '\n' || c == '\r' || c as int == 11 || c as int == 12
  }

  /** Drops leading whitespace (TrimLeftSpec). */
  function TrimLeft(s: string): string
  {
    if s != [] && IsSpace(s[0]) then TrimLeft(s[1..]) else s
  }

  /** Drops trailing whitespace (TrimRightSpec). */
  function TrimRight(s: string): string
  {
    if s != [] && IsSpace(s[|s| - 1]) then TrimRight(s[..|s| - 1]) else s
  }

  /** `bytes.strip()` with no argument (StripSpec). */
  function Strip(s: string): string
  {
    TrimRight(TrimLeft(s))
  }

  /** How many leading characters `bytes.strip()` removes. */
  function StripCut(s: string): nat
  {
    TrimLeftSpec(s);
    |s| - |TrimLeft(s)|
  }

  /** TrimLeft keeps the longest suffix that does not start with whitespace. */
  lemma {:induction false} TrimLeftSpec(s: string)
    ensures |TrimLeft(s)| <= |s| && TrimLeft(s) == s[|s| - |TrimLeft(s)|..]
    ensures forall k :: 0 <= k < |s| - |TrimLeft(s)| ==> IsSpace(s[k])
    ensures TrimLeft(s) != [] ==> !IsSpace(TrimLeft(s)[0])
  {
    if s != [] && IsSpace(s[0]) {
      var tail := s[1..];
      TrimLeftSpec(tail);
      var t := TrimLeft(tail);
      assert TrimLeft(s) == t;
      assert tail[|tail| - |t|..] == s[|s| - |t|..];
      forall k | 0 <= k < |s| - |t| ensures IsSpace(s[k]) {
        if k > 0 { assert s[k] == tail[k - 1]; }
      }
    }
  }

  /** TrimRight keeps the longest prefix that does not end with whitespace. */
  lemma {:induction false} TrimRightSpec(s: string)
    ensures |TrimRight(s)| <= |s| && TrimRight(s) == s[..|TrimRight(s)|]
    ensures forall k :: |TrimRight(s)| <= k < |s| ==> IsSpace(s[k])
    ensures TrimRight(s) != [] ==> !IsSpace(TrimRight(s)[|TrimRight(s)| - 1])
  {
    if s != [] && IsSpace(s[|s| - 1]) {
      var init := s[..|s| - 1];
      TrimRightSpec(init);
      var t := TrimRight(init);
      assert TrimRight(s) == t;
      assert init[..|t|] == s[..|t|];
      forall k | |t| <= k < |s| ensures IsSpace(s[k]) {
        if k < |s| - 1 { assert s[k] == init[k]; }
      }
    }
  }

  /**
   * `bytes.strip()` keeps the slice of `s` that follows its leading whitespace
   * and starts and ends with a non-space; every character it removes, in front
   * and behind, is whitespace.
   */
  lemma StripSpec(s: string)
    ensures var r := Strip(s);
      && (r != [] ==> !IsSpace(r[0]) && !IsSpace(r[|r| - 1]))
      && StripCut(s) + |r| <= |s| && r == s[StripCut(s)..StripCut(s) + |r|]
      && (forall k :: 0 <= k < StripCut(s) ==> IsSpace(s[k]))
      && (forall k :: StripCut(s) + |r| <= k < |s| ==> IsSpace(s[k]))
  {
    var l := TrimLeft(s);
    TrimLeftSpec(s);
    TrimRightSpec(l);
    var lo := StripCut(s);
    var r := Strip(s);
    forall k | lo + |r| <= k < |s| ensures IsSpace(s[k]) {
      assert s[k] == l[k - lo];
    }
    if r != [] {
      assert r[0] == l[0];
    }
  }

  /** The strip is empty exactly when every character is whitespace. */
  lemma StripEmpty(s: string)
    ensures Strip(s) == [] <==> forall k :: 0 <= k < |s| ==> IsSpace(s[k])
  {
    var r := Strip(s);
    StripSpec(s);
    if r != [] { assert s[StripCut(s)] == r[0]; }
  }

  /** A string with no whitespace at either end is its own strip. */
  lemma StripTrimmed(s: string)
    requires s != [] ==> !IsSpace(s[0]) && !IsSpace(s[|s| - 1])
    ensures Strip(s) == s
  {
  }

  /** Stripping twice is stripping once. */
  lemma StripIdempotent(s: string)
    ensures Strip(Strip(s)) == Strip(s)
  {
    StripSpec(s);
    StripTrimmed(Strip(s));
  }

  // ---------------------------------------------------------------------------
  // os.path.splitext (POSIX flavour)
  // ---------------------------------------------------------------------------

  /** `s.rfind(c)`: the last index holding `c`, or -1. */
  function LastIndex(s: string, c: char): (r: int)
    ensures -1 <= r < |s|
    ensures r >= 0 ==> s[r] == c
    ensures forall k :: r < k < |s| ==> s[k] != c
  {
    if s == [] then -1
    else if s[|s| - 1] == c then |s| - 1
    else LastIndex(s[..|s| - 1], c)
  }

  /** Some character of `p[lo..hi]` is not a dot. */
  predicate HasNonDot(p: string, lo: int, hi: int)
    requires 0 <= lo && hi <= |p|
  {
    exists k :: lo <= k < hi && p[k] != '.'
  }

  /**
   * `os.path.splitext(p)`: the extension starts at the last dot of the last
   * path component, provided that dot is not part of the component's leading
   * run of dots; otherwise the extension is empty. A non-empty extension
   * therefore leaves a root whose last component has a non-dot character
   * (leading dots stay in the root); SplitExtOf shows that such a split is
   * always taken when one exists.
   */
  function SplitExt(p: string): (r: (string, string))
    ensures r.0 + r.1 == p
    ensures r.1 != [] ==> r.1[0] == '.'
    ensures forall k :: 1 <= k < |r.1| ==> r.1[k] != '.' && r.1[k] != '/'
    ensures r.1 != [] ==> HasNonDot(r.0, LastIndex(r.0, '/') + 1, |r.0|)
  {
    var sep := LastIndex(p, '/');
    var dot := LastIndex(p, '.');
    if dot > sep && HasNonDot(p, sep + 1, dot) then
      RootKeepsNonDot(p, dot);
      (p[..dot], p[dot..])
    else (p, [])
  }

  /** Cutting `p` at a dot after its last slash keeps the non-dot character
      that the last component has before that dot. */
  lemma RootKeepsNonDot(p: string, dot: int)
    requires LastIndex(p, '/') < dot < |p|
    requires HasNonDot(p, LastIndex(p, '/') + 1, dot)
    ensures HasNonDot(p[..dot], LastIndex(p[..dot], '/') + 1, dot)
  {
    var sep := LastIndex(p, '/');
    var root, tail := p[..dot], p[dot..];
    var k :| sep + 1 <= k < dot && p[k] != '.';
    assert HasNonDot(root, sep + 1, dot) by {
      assert root[k] == p[k];
    }
    assert LastIndex(root, '/') == sep by {
      NoSlashAfter(p, dot);
      assert root + tail == p;
      LastIndexAppend(root, tail, '/');
    }
  }

  /** Past the last slash there is no slash. */
  lemma NoSlashAfter(p: string, dot: int)
    requires LastIndex(p, '/') < dot <= |p|
    ensures forall k :: 0 <= k < |p[dot..]| ==> p[dot..][k] != '/'
  {
    forall k | 0 <= k < |p[dot..]| ensures p[dot..][k] != '/' {
      assert p[dot..][k] == p[dot + k];
    }
  }

  /** Appending characters other than `c` does not move the last `c`. */
  lemma {:induction false} LastIndexAppend(a: string, b: string, c: char)
    requires forall k :: 0 <= k < |b| ==> b[k] != c
    ensures LastIndex(a + b, c) == LastIndex(a, c)
  {
    if b != [] {
      var b' := b[..|b| - 1];
      assert (a + b)[..|a + b| - 1] == a + b';
      LastIndexAppend(a, b', c);
    } else {
      assert a + b == a;
    }
  }

  /**
   * A file name whose last component has a non-dot character, followed by a
   * dot and a suffix with no dot or slash, splits into exactly those two parts.
   */
  lemma SplitExtOf(stem: string, ext: string)
    requires |ext| >= 1 && ext[0] == '.'
    requires forall k :: 1 <= k < |ext| ==> ext[k] != '.' && ext[k] != '/'
    requires HasNonDot(stem, LastIndex(stem, '/') + 1, |stem|)
    ensures SplitExt(stem + ext) == (stem, ext)
  {
    var p := stem + ext;
    var sep := LastIndex(stem, '/');
    assert forall k :: 0 <= k < |ext| ==> ext[k] != '/' by {
      forall k | 0 <= k < |ext| ensures ext[k] != '/' {
        if k == 0 { assert ext[0] == '.'; }
      }
    }
    LastIndexAppend(stem, ext, '/');
    LastDotOf(stem, ext);
    NonDotPrefix(stem, ext, sep + 1);
    assert LastIndex(p, '.') > LastIndex(p, '/') && HasNonDot(p, LastIndex(p, '/') + 1, LastIndex(p, '.'));
    assert p[..|stem|] == stem && p[|stem|..] == ext;
  }

  /** Whenever `p` can be cut at index `k` into a root as SplitExtOf demands
      and a dotted suffix without dots or slashes, `splitext` cuts it there. */
  lemma SplitExtTakesExt(p: string, k: nat)
    requires k < |p| && p[k] == '.'
    requires forall j :: k < j < |p| ==> p[j] != '.' && p[j] != '/'
    requires HasNonDot(p[..k], LastIndex(p[..k], '/') + 1, k)
    ensures SplitExt(p) == (p[..k], p[k..])
  {
    var stem, ext := p[..k], p[k..];
    forall j | 1 <= j < |ext| ensures ext[j] != '.' && ext[j] != '/' {
      assert ext[j] == p[k + j];
    }
    SplitExtOf(stem, ext);
    assert stem + ext == p;
  }

  /**
   * Leading dots stay in the root: a last component made only of dots in
   * front of its final `.suffix` (`.c`, `dir/..c`) has no extension.
   */
  lemma LeadingDotsNoExt(dir: string, dots: string, ext: string)
    requires dir == [] || dir[|dir| - 1] == '/'
    requires forall k :: 0 <= k < |dots| ==> dots[k] == '.'
    requires |ext| >= 1 && ext[0] == '.'
    requires forall k :: 1 <= k < |ext| ==> ext[k] != '.' && ext[k] != '/'
    ensures SplitExt(dir + dots + ext) == (dir + dots + ext, [])
  {
    var p := dir + dots + ext;
    var q := |dir| + |dots|;
    var r := SplitExt(p);
    if r.1 != [] {
      assert p[q] == '.';
      assert p[|r.0|] == r.1[0];
      assert r.0 == dir + dots by {
        assert |r.0| == q;
        assert p[..q] == dir + dots;
      }
      LastIndexAppend(dir, dots, '/');
      assert false;
    }
  }

  /** The last dot of `stem + ext` is the first character of `ext`. */
  lemma LastDotOf(stem: string, ext: string)
    requires |ext| >= 1 && ext[0] == '.'
    requires forall k :: 1 <= k < |ext| ==> ext[k] != '.'
    ensures LastIndex(stem + ext, '.') == |stem|
  {
    var head := stem + [ext[0]];
    assert stem + ext == head + ext[1..];
    LastIndexAppend(head, ext[1..], '.');
  }

  /** A non-dot in `stem[lo..]` is still there once something is appended. */
  lemma NonDotPrefix(stem: string, ext: string, lo: int)
    requires 0 <= lo && HasNonDot(stem, lo, |stem|)
    ensures HasNonDot(stem + ext, lo, |stem|)
  {
    var k :| lo <= k < |stem| && stem[k] != '.';
    assert (stem + ext)[k] == stem[k];
  }

  // ---------------------------------------------------------------------------
  // str.format with automatically numbered fields
  // ---------------------------------------------------------------------------

  /** Puts `prefix` in front of a formatted string; a failure stays a failure. */
  function Prepend(prefix: string, o: Option<string>): Option<string>
  {
    match o
    case None => None
    case Some(s) => Some(prefix + s)
  }

  /** No brace characters in `s`. */
  predicate BraceFree(s: string)
  {
    forall k :: 0 <= k < |s| ==> s[k] != '{' && s[k] != '}'
  }

  /**
   * `t.format(*args)` for templates whose fields are all `{}`: each `{}` takes
   * the next argument, `{{` and `}}` stand for one brace, and a surplus of
   * arguments is ignored. Too few arguments (IndexError) and any other use of a
   * brace give None.
   */
  function Format(t: string, args: seq<string>): Option<string>
    decreases |t|
  {
    if t == [] then Some([])
    else if t[0] == '{' && |t| >= 2 && t[1] == '}' then
      if args == [] then None else Prepend(args[0], Format(t[2..], args[1..]))
    else if (t[0] == '{' || t[0] == '}') && |t| >= 2 && t[1] == t[0] then
      Prepend([t[0]], Format(t[2..], args))
    else if t[0] == '{' || t[0] == '}' then None
    else Prepend([t[0]], Format(t[1..], args))
  }

  /** Literal text without braces is copied to the output unchanged. */
  lemma {:induction false} FormatLiteral(lit: string, rest: string, args: seq<string>)
    requires BraceFree(lit)
    ensures Format(lit + rest, args) == Prepend(lit, Format(rest, args))
  {
    if lit == [] {
      assert lit + rest == rest;
      match Format(rest, args)
      case None =>
      case Some(s) => assert lit + s == s;
    } else {
      assert (lit + rest)[1..] == lit[1..] + rest;
      FormatLiteral(lit[1..], rest, args);
      match Format(rest, args)
      case None =>
      case Some(s) => assert [lit[0]] + (lit[1..] + s) == lit + s;
    }
  }

  /** A `{}` field is replaced by the next argument. */
  lemma FormatField(rest: string, args: seq<string>)
    requires args != []
    ensures Format("{}" + rest, args) == Prepend(args[0], Format(rest, args[1..]))
  {
    assert ("{}" + rest)[2..] == rest;
  }

  /** A template `a{}b{}c` with brace-free `a`, `b`, `c` and two arguments. */
  lemma FormatTwoFields(a: string, b: string, c: string, x: string, y: string)
    requires BraceFree(a) && BraceFree(b) && BraceFree(c)
    ensures Format(a + "{}" + b + "{}" + c, [x, y]) == Some(a + x + b + y + c)
  {
    var t3 := "{}" + c;
    var t2 := b + t3;
    var t1 := "{}" + t2;
    assert a + "{}" + b + "{}" + c == a + t1;
    assert Format(c, []) == Some(c) by {
      FormatLiteral(c, [], []);
      assert c + [] == c;
    }
    assert Format(t3, [y]) == Some(y + c) by {
      FormatField(c, [y]);
      assert [y][1..] == [];
    }
    assert Format(t2, [y]) == Some(b + (y + c)) by {
      FormatLiteral(b, t3, [y]);
    }
    assert Format(t1, [x, y]) == Some(x + (b + (y + c))) by {
      FormatField(t2, [x, y]);
      assert [x, y][1..] == [y];
    }
    FormatLiteral(a, t1, [x, y]);
    assert a + (x + (b + (y + c))) == a + x + b + y + c;
  }

  // ---------------------------------------------------------------------------
  // Python list indexing
  // ---------------------------------------------------------------------------

  /**
   * Which element `xs[j]` denotes for a Python list of length `n`: a
   * non-negative `j` counts from the front, a negative one from the back, and
   * anything outside `-n <= j < n` is an IndexError (None).
   */
  function PyIndex(n: nat, j: int): (r: Option<nat>)
    ensures r.Some? <==> -(n as int) <= j < n
    ensures r.Some? ==> r.value < n
    ensures 0 <= j < n ==> r == Some(j)
    ensures -(n as int) <= j < 0 ==> r == Some(n + j)
  {
    if 0 <= j < n then Some(j)
    else if -(n as int) <= j < 0 then Some(n + j)
    else None
  }
}
