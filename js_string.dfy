/** The few JavaScript string built-ins the page script relies on, as pure
    functions over `seq<char>`: `includes`, `trim`, `split` and the array's
    `pop` on the result of a split. */
module JsString {

  /** `s.startsWith(prefix)` */
  predicate StartsWith(s: string, prefix: string)
  {
    |prefix| <= |s| && s[..|prefix|] == prefix
  }

  /** `s.includes(sub)`: `sub` starts at some position of `s`, tried from the left. */
  predicate Contains(s: string, sub: string)
    decreases |s|
  {
    StartsWith(s, sub) || (s != [] && Contains(s[1..], sub))
  }

  /** `sub` occurs in `s` starting at index `i`. */
  ghost predicate OccursAt(s: string, sub: string, i: int)
  {
    0 <= i && i + |sub| <= |s| && s[i..i + |sub|] == sub
  }

  /** `Contains` finds `sub` exactly when it occurs somewhere in `s`. */
  lemma {:induction false} ContainsIff(s: string, sub: string)
    ensures Contains(s, sub) <==> exists i :: OccursAt(s, sub, i)
    decreases |s|
  {
    if StartsWith(s, sub) {
      assert OccursAt(s, sub, 0);
    } else if s == [] {
    } else {
      ContainsIff(s[1..], sub);
      if exists i :: OccursAt(s, sub, i) {
        var i :| OccursAt(s, sub, i);
        assert s[1..][i - 1..i - 1 + |sub|] == s[i..i + |sub|];
        assert OccursAt(s[1..], sub, i - 1);
      }
      if exists i :: OccursAt(s[1..], sub, i) {
        var i :| OccursAt(s[1..], sub, i);
        assert s[1..][i..i + |sub|] == s[i + 1..i + 1 + |sub|];
        assert OccursAt(s, sub, i + 1);
      }
    }
  }

  /** A text cannot contain a word whose first letter it lacks. */
  lemma {:induction false} MissingFirstChar(s: string, sub: string)
    requires sub != [] && sub[0] !in s
    ensures !Contains(s, sub)
    decreases |s|
  {
    if s != [] {
      assert s[0] != sub[0];
      MissingFirstChar(s[1..], sub);
    }
  }

  /** A text cannot contain a word when no place where the word's `k`-th letter
      would have to fall holds that letter. */
  lemma MissingLetter(s: string, sub: string, k: nat)
    requires k < |sub|
    requires |sub| <= |s| ==> sub[k] !in s[k..|s| - |sub| + k + 1]
    ensures !Contains(s, sub)
  {
    forall i | 0 <= i && i + |sub| <= |s|
      ensures !OccursAt(s, sub, i)
    {
      assert s[i..i + |sub|][k] == s[i + k] == s[k..|s| - |sub| + k + 1][i];
    }
    ContainsIff(s, sub);
  }

  /** A text that contains `t` contains everything `t` contains: a page name
      with "salud-mental" in it also contains "salud". */
  lemma ContainsTrans(s: string, t: string, u: string)
    requires Contains(s, t) && Contains(t, u)
    ensures Contains(s, u)
  {
    ContainsIff(s, t);
    ContainsIff(t, u);
    var i :| OccursAt(s, t, i);
    var j :| OccursAt(t, u, j);
    forall k | 0 <= k < |u|
      ensures s[i + j + k] == u[k]
    {
      assert u[k] == t[j + k] == s[i + j + k];
    }
    assert OccursAt(s, u, i + j);
    ContainsIff(s, u);
  }

  /** The characters `String.prototype.trim` removes: ECMAScript's WhiteSpace
      (tab, vertical tab, form feed, space, no-break space, zero width no-break
      space and the Unicode space separators) and LineTerminator (line feed,
      carriage return, line and paragraph separators). */
  predicate IsWhitespace(c: char)
  {
    c == '\t' || c == '\n' || c == '\U{000B}' || c == '\U{000C}' || c == '\r' ||
    c == ' ' || c == '\U{00A0}' || c == '\U{1680}' ||
    ('\U{2000}' <= c <= '\U{200A}') ||
    c == '\U{2028}' || c == '\U{2029}' || c == '\U{202F}' || c == '\U{205F}' ||
    c == '\U{3000}' || c == '\U{FEFF}'
  }

  predicate AllWhitespace(s: string)
  {
    forall k :: 0 <= k < |s| ==> IsWhitespace(s[k])
  }

  /** `s.trimStart()`: drops the leading whitespace and nothing else. */
  function TrimStart(s: string): (r: string)
    ensures |r| <= |s| && r == s[|s| - |r|..]
    ensures forall k :: 0 <= k < |s| - |r| ==> IsWhitespace(s[k])
    ensures r == [] || !IsWhitespace(r[0])
    decreases |s|
  {
    if s != [] && IsWhitespace(s[0]) then
      var r := TrimStart(s[1..]);
      assert forall k :: 1 <= k < |s| ==> s[k] == s[1..][k - 1];
      r
    else s
  }

  /** `s.trimEnd()`: drops the trailing whitespace and nothing else. */
  function TrimEnd(s: string): (r: string)
    ensures |r| <= |s| && r == s[..|r|]
    ensures forall k :: |r| <= k < |s| ==> IsWhitespace(s[k])
    ensures r == [] || !IsWhitespace(r[|r| - 1])
    decreases |s|
  {
    if s != [] && IsWhitespace(s[|s| - 1]) then
      var r := TrimEnd(s[..|s| - 1]);
      assert forall k :: 0 <= k < |s| - 1 ==> s[k] == s[..|s| - 1][k];
      r
    else s
  }

  /** `s.trim()` */
  function Trim(s: string): string
  {
    TrimEnd(TrimStart(s))
  }

  /** The position where the text that `trim` keeps starts. */
  function TrimFrom(s: string): (i: nat)
    ensures i <= |s|
  {
    |s| - |TrimStart(s)|
  }

  lemma TrimSlice(s: string)
    ensures TrimFrom(s) + |Trim(s)| <= |s|
    ensures Trim(s) == s[TrimFrom(s)..TrimFrom(s) + |Trim(s)|]
  {
    var a := TrimStart(s);
    var r := TrimEnd(a);
    assert r == a[..|r|];
    assert a == s[TrimFrom(s)..];
  }

  /** Whitespace at the end of a tail `s[i..]` is whitespace at the end of `s`. */
  lemma TailWhitespace(s: string, i: nat, n: nat)
    requires i + n <= |s|
    requires forall k :: n <= k < |s[i..]| ==> IsWhitespace(s[i..][k])
    ensures forall k :: i + n <= k < |s| ==> IsWhitespace(s[k])
  {
    forall k | i + n <= k < |s|
      ensures IsWhitespace(s[k])
    {
      assert s[k] == s[i..][k - i];
    }
  }

  lemma TrimTrailing(s: string)
    ensures forall k :: TrimFrom(s) + |Trim(s)| <= k < |s| ==> IsWhitespace(s[k])
  {
    var a := TrimStart(s);
    var i := |s| - |a|;
    var r := TrimEnd(a);
    assert a == s[i..];
    TailWhitespace(s, i, |r|);
  }

  /** `trim` leaves whitespace on neither end. */
  lemma TrimEnds(s: string)
    ensures Trim(s) == [] || (!IsWhitespace(Trim(s)[0]) && !IsWhitespace(Trim(s)[|Trim(s)| - 1]))
  {
    var a := TrimStart(s);
    var r := TrimEnd(a);
    if r != [] {
      assert r[0] == a[0];
    }
  }

  /** What `trim` returns: the slice of `s` between its leading and its
      trailing whitespace, with whitespace on neither end. */
  lemma TrimIsCore(s: string)
    ensures TrimFrom(s) + |Trim(s)| <= |s|
    ensures Trim(s) == s[TrimFrom(s)..TrimFrom(s) + |Trim(s)|]
    ensures forall k :: 0 <= k < TrimFrom(s) ==> IsWhitespace(s[k])
    ensures forall k :: TrimFrom(s) + |Trim(s)| <= k < |s| ==> IsWhitespace(s[k])
    ensures Trim(s) == [] || (!IsWhitespace(Trim(s)[0]) && !IsWhitespace(Trim(s)[|Trim(s)| - 1]))
  {
    TrimSlice(s);
    TrimTrailing(s);
    TrimEnds(s);
  }

  /** Trimming a trimmed text changes nothing. */
  lemma TrimIdempotent(s: string)
    ensures Trim(Trim(s)) == Trim(s)
  {
    var r := Trim(s);
    TrimIsCore(s);
    if r != [] {
      assert TrimStart(r) == r;
      assert TrimEnd(r) == r;
    }
  }

  /** `trim` gives the empty string exactly for an all-whitespace text. */
  lemma TrimEmptyIff(s: string)
    ensures Trim(s) == [] <==> AllWhitespace(s)
  {
    TrimIsCore(s);
    var i := TrimFrom(s);
    if Trim(s) != [] {
      assert Trim(s)[0] == s[i];
      assert !IsWhitespace(s[i]);
    }
  }

  /** `s.split(sep)` for a one-character separator: the pieces between the
      separators, in order, empty pieces included ("".split("/") is [""],
      "/".split("/") is ["", ""]). */
  function Split(s: string, sep: char): (r: seq<string>)
    ensures |r| >= 1
    decreases |s|
  {
    if s == [] then [[]]
    else
      var rest := Split(s[1..], sep);
      if s[0] == sep then [[]] + rest
      else [[s[0]] + rest[0]] + rest[1..]
  }

  /** `parts.join(sep)` */
  function Join(parts: seq<string>, sep: char): string
  {
    if parts == [] then []
    else if |parts| == 1 then parts[0]
    else parts[0] + [sep] + Join(parts[1..], sep)
  }

  /** Joining a first piece onto a non-empty list of pieces. */
  lemma JoinCons(p: string, ps: seq<string>, sep: char)
    requires ps != []
    ensures Join([p] + ps, sep) == p + [sep] + Join(ps, sep)
  {
    assert ([p] + ps)[0] == p;
    assert ([p] + ps)[1..] == ps;
  }

  /** One step of `SplitJoin`: the text starts with the separator. */
  lemma SplitJoinSep(s: string, sep: char)
    requires s != [] && s[0] == sep
    requires Join(Split(s[1..], sep), sep) == s[1..]
    ensures Join(Split(s, sep), sep) == s
  {
    var rest := Split(s[1..], sep);
    assert Split(s, sep) == [[]] + rest;
    JoinCons([], rest, sep);
    assert s == [s[0]] + s[1..];
  }

  /** Putting a character in front of the first piece puts it in front of
      the joined text. */
  lemma JoinExtendFirst(c: char, parts: seq<string>, sep: char)
    requires parts != []
    ensures Join([[c] + parts[0]] + parts[1..], sep) == [c] + Join(parts, sep)
  {
    if |parts| > 1 {
      JoinCons([c] + parts[0], parts[1..], sep);
      assert parts == [parts[0]] + parts[1..];
      JoinCons(parts[0], parts[1..], sep);
    } else {
      assert [[c] + parts[0]] + parts[1..] == [[c] + parts[0]];
    }
  }

  /** One step of `SplitJoin`: the text starts with another character. */
  lemma SplitJoinChar(s: string, sep: char)
    requires s != [] && s[0] != sep
    requires Join(Split(s[1..], sep), sep) == s[1..]
    ensures Join(Split(s, sep), sep) == s
  {
    var rest := Split(s[1..], sep);
    assert Split(s, sep) == [[s[0]] + rest[0]] + rest[1..];
    JoinExtendFirst(s[0], rest, sep);
    assert s == [s[0]] + s[1..];
  }

  /** Splitting loses nothing: joining the pieces again gives the text back. */
  lemma {:induction false} SplitJoin(s: string, sep: char)
    ensures Join(Split(s, sep), sep) == s
    decreases |s|
  {
    if s != [] {
      SplitJoin(s[1..], sep);
      if s[0] == sep {
        SplitJoinSep(s, sep);
      } else {
        SplitJoinChar(s, sep);
      }
    }
  }

  /** How `Split` takes a text apart at its first character. */
  lemma SplitFirst(s: string, sep: char)
    requires s != []
    ensures s[0] == sep ==> Split(s, sep) == [[]] + Split(s[1..], sep)
    ensures s[0] != sep ==>
      var rest := Split(s[1..], sep);
      Split(s, sep) == [[s[0]] + rest[0]] + rest[1..]
  {
  }

  /** And the other way round: text joined from separator-free pieces splits
      back into those pieces. */
  lemma {:induction false} JoinSplit(parts: seq<string>, sep: char)
    requires |parts| >= 1
    requires forall k :: 0 <= k < |parts| ==> sep !in parts[k]
    ensures Split(Join(parts, sep), sep) == parts
    decreases |parts|, |parts[0]|
  {
    var p := parts[0];
    var tail := parts[1..];
    if |parts| == 1 {
      SplitPieces(p, sep);
    } else if p == [] {
      assert parts == [p] + tail;
      JoinCons(p, tail, sep);
      var s := Join(parts, sep);
      assert s == [sep] + Join(tail, sep);
      JoinSplit(tail, sep);
      SplitFirst(s, sep);
      assert s[1..] == Join(tail, sep);
    } else {
      var shorter := [p[1..]] + tail;
      assert shorter[0] == p[1..] && shorter[1..] == tail;
      JoinSplit(shorter, sep);
      assert p == [p[0]] + p[1..];
      assert parts == [[p[0]] + shorter[0]] + shorter[1..];
      JoinExtendFirst(p[0], shorter, sep);
      var s := Join(parts, sep);
      assert s == [p[0]] + Join(shorter, sep);
      assert p[0] != sep by { assert p[0] in p; }
      SplitFirst(s, sep);
      assert s[1..] == Join(shorter, sep);
    }
  }

  /** No piece holds the separator, and the text comes back whole, as the
      only piece, exactly when it holds no separator. */
  lemma {:induction false} SplitPieces(s: string, sep: char)
    ensures forall k :: 0 <= k < |Split(s, sep)| ==> sep !in Split(s, sep)[k]
    ensures sep !in s ==> Split(s, sep) == [s]
    ensures sep in s ==> |Split(s, sep)| > 1
    decreases |s|
  {
    if s != [] {
      var rest := Split(s[1..], sep);
      SplitPieces(s[1..], sep);
      SplitFirst(s, sep);
      assert s == [s[0]] + s[1..];
      if s[0] != sep {
        var r := Split(s, sep);
        assert sep !in r[0] by { assert r[0] == [s[0]] + rest[0]; }
        forall k | 1 <= k < |r|
          ensures sep !in r[k]
        {
          assert r[k] == rest[k];
        }
      }
    }
  }

  /** `a.pop()` on a non-empty array: its last element. */
  function Last<T>(a: seq<T>): T
    requires a != []
  {
    a[|a| - 1]
  }

  /** `l` is what follows the last separator of `s`: a separator-free tail
      of `s` that is the whole of `s` or is preceded by a separator. */
  predicate TailAfterLast(s: string, l: string, sep: char)
  {
    sep !in l && |l| <= |s| && s[|s| - |l|..] == l &&
    (|l| == |s| || s[|s| - |l| - 1] == sep)
  }

  /** The last piece of a split is the longest separator-free tail of the
      text: it ends the text and is preceded by a separator or by nothing. */
  lemma {:induction false} SplitLastIsTail(s: string, sep: char)
    ensures TailAfterLast(s, Last(Split(s, sep)), sep)
    decreases |s|
  {
    if s != [] {
      var t := s[1..];
      SplitLastIsTail(t, sep);
      SplitLastStep(s, sep);
      if s[0] != sep && sep !in t {
        WholeTail(s, sep);
      } else {
        TailAfterSeparator(s, Last(Split(t, sep)), sep);
      }
    }
  }

  /** A text without separator is its own tail after the last separator. */
  lemma WholeTail(s: string, sep: char)
    requires s != [] && s[0] != sep && sep !in s[1..]
    ensures TailAfterLast(s, s, sep)
  {
    assert s == [s[0]] + s[1..];
  }

  /** What follows the last separator of `s[1..]` also follows the last
      separator of `s`, provided `s` holds a separator. */
  lemma TailAfterSeparator(s: string, l: string, sep: char)
    requires s != [] && (s[0] == sep || sep in s[1..])
    requires TailAfterLast(s[1..], l, sep)
    ensures TailAfterLast(s, l, sep)
  {
    var t := s[1..];
    assert s[|s| - |l|..] == t[|t| - |l|..];
    if |l| == |t| {
      assert l == t;
      assert s[|s| - |l| - 1] == s[0];
    } else {
      assert s[|s| - |l| - 1] == t[|t| - |l| - 1];
    }
  }

  /** The last piece of a split of a non-empty text: the whole text when it
      holds no separator, otherwise the last piece of the rest. */
  lemma SplitLastStep(s: string, sep: char)
    requires s != []
    ensures s[0] != sep && sep !in s[1..] ==> Last(Split(s, sep)) == s
    ensures s[0] == sep || sep in s[1..] ==> Last(Split(s, sep)) == Last(Split(s[1..], sep))
  {
    var r := Split(s, sep);
    var rest := Split(s[1..], sep);
    SplitFirst(s, sep);
    if s[0] == sep {
      assert r[|r| - 1] == rest[|rest| - 1];
    } else if sep !in s[1..] {
      assert s == [s[0]] + s[1..];
      SplitPieces(s, sep);
    } else {
      assert |rest| > 1;
      assert r[|r| - 1] == rest[|rest| - 1];
    }
  }

}
