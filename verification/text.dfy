/** Python's string operations that the scripts rely on: `str.split` with a
    one-character separator, tuple unpacking of its result, `os.path.splitext`
    on a directory-entry name, and lexicographic string comparison. */
module Text {

  /** The exceptions the scripts can raise from their own logic. */
  datatype Error =
    | UnpackError(expected: nat, got: nat)   // ValueError: wrong number of values to unpack
    | IndexError(index: nat, length: nat)    // IndexError: list index out of range

  datatype Result<T> = Ok(value: T) | Err(error: Error)

  datatype Option<T> = None | Some(value: T)

  /** How many times `c` occurs in `s`. */
  function Occurrences(s: string, c: char): nat
  {
    if s == [] then 0 else (if s[0] == c then 1 else 0) + Occurrences(s[1..], c)
  }

  /** `s` with every `c` removed. */
  function Strip(s: string, c: char): (r: string)
    ensures |r| == |s| - Occurrences(s, c)
    ensures forall i :: 0 <= i < |r| ==> r[i] != c && r[i] in s
    ensures multiset(r) == multiset(s)[c := 0]
  {
    if s == [] then []
    else
      assert s == [s[0]] + s[1..];
      (if s[0] == c then [] else [s[0]]) + Strip(s[1..], c)
  }

  /** `s.split(sep)`: the pieces between separators, empty pieces included,
      so there is always one piece more than there are separators. */
  function Split(s: string, sep: char): (parts: seq<string>)
    ensures |parts| == Occurrences(s, sep) + 1
    ensures forall i :: 0 <= i < |parts| ==> sep !in parts[i]
  {
    if s == [] then [""]
    else
      var rest := Split(s[1..], sep);
      if s[0] == sep then [""] + rest else [[s[0]] + rest[0]] + rest[1..]
  }

  /** `sep.join(parts)`. */
  function Join(parts: seq<string>, sep: char): string
  {
    if |parts| == 0 then ""
    else if |parts| == 1 then parts[0]
    else parts[0] + [sep] + Join(parts[1..], sep)
  }

  /** The pieces glued together with nothing between them. */
  function Concat(parts: seq<string>): string
  {
    if parts == [] then "" else parts[0] + Concat(parts[1..])
  }

  /** `a, b, ... = s.split(sep)` with `n` names on the left: the pieces, or
      the ValueError Python raises when their number is not `n`. */
  function Unpack(s: string, sep: char, n: nat): (r: Result<seq<string>>)
    ensures r.Ok? <==> Occurrences(s, sep) + 1 == n
    ensures r.Ok? ==> |r.value| == n && Join(r.value, sep) == s
    ensures r.Ok? ==> forall i :: 0 <= i < n ==> sep !in r.value[i]
    ensures r.Err? ==> r.error == UnpackError(n, Occurrences(s, sep) + 1)
  {
    var parts := Split(s, sep);
    SplitJoin(s, sep);
    if |parts| == n then Ok(parts) else Err(UnpackError(n, |parts|))
  }

  lemma JoinTwo(a: string, b: string, sep: char)
    ensures Join([a, b], sep) == a + [sep] + b
  {
    assert [a, b][1..] == [b];
  }

  lemma JoinThree(a: string, b: string, c: string, sep: char)
    ensures Join([a, b, c], sep) == a + [sep] + b + [sep] + c
  {
    assert [a, b, c][1..] == [b, c];
    JoinTwo(b, c, sep);
  }

  lemma ConcatThree(a: string, b: string, c: string)
    ensures Concat([a, b, c]) == a + b + c
  {
    assert [a, b, c][1..] == [b, c];
    assert [b, c][1..] == [c];
    assert [c][1..] == [];
    assert Concat([c]) == c + Concat([]);
    assert c + "" == c;
  }

  lemma JoinFront(x: string, y: string, rest: seq<string>, sep: char)
    ensures Join([x + y] + rest, sep) == x + Join([y] + rest, sep)
  {
    if rest != [] {
      assert ([x + y] + rest)[1..] == rest;
      assert ([y] + rest)[1..] == rest;
    }
  }

  /** Joining the pieces of a split gives back the string. */
  lemma {:induction false} SplitJoin(s: string, sep: char)
    ensures Join(Split(s, sep), sep) == s
  {
    if s != [] {
      var rest := Split(s[1..], sep);
      SplitJoin(s[1..], sep);
      if s[0] == sep {
        assert ([""] + rest)[1..] == rest;
      } else {
        JoinFront([s[0]], rest[0], rest[1..], sep);
        assert [rest[0]] + rest[1..] == rest;
      }
    }
  }

  /** Splitting a piece that holds no separator, followed by a separator. */
  lemma {:induction false} SplitAfterPiece(a: string, t: string, sep: char)
    requires sep !in a
    ensures Split(a + [sep] + t, sep) == [a] + Split(t, sep)
  {
    if a == [] {
      assert a + [sep] + t == [sep] + t;
      assert ([sep] + t)[1..] == t;
    } else {
      var s := a + [sep] + t;
      assert s[1..] == a[1..] + [sep] + t;
      SplitAfterPiece(a[1..], t, sep);
      assert [a[0]] + a[1..] == a;
    }
  }

  /** A string without the separator splits into itself alone. */
  lemma {:induction false} SplitWithout(a: string, sep: char)
    requires sep !in a
    ensures Split(a, sep) == [a]
  {
    if a != [] {
      SplitWithout(a[1..], sep);
      assert [a[0]] + a[1..] == a;
    }
  }

  /** Splitting a join of separator-free pieces gives back the pieces. */
  lemma {:induction false} JoinSplit(parts: seq<string>, sep: char)
    requires |parts| >= 1
    requires forall i :: 0 <= i < |parts| ==> sep !in parts[i]
    ensures Split(Join(parts, sep), sep) == parts
  {
    if |parts| == 1 {
      SplitWithout(parts[0], sep);
    } else {
      JoinSplit(parts[1..], sep);
      SplitAfterPiece(parts[0], Join(parts[1..], sep), sep);
      assert [parts[0]] + parts[1..] == parts;
    }
  }

  /** Gluing the pieces of a split together removes exactly the separators. */
  lemma {:induction false} ConcatSplit(s: string, sep: char)
    ensures Concat(Split(s, sep)) == Strip(s, sep)
  {
    if s != [] {
      var rest := Split(s[1..], sep);
      ConcatSplit(s[1..], sep);
      if s[0] == sep {
        assert ([""] + rest)[1..] == rest;
      } else {
        var parts := [[s[0]] + rest[0]] + rest[1..];
        assert parts[1..] == rest[1..];
        assert Concat(rest) == rest[0] + Concat(rest[1..]);
      }
    }
  }

  /** Whether every character of `s` is a dot. */
  predicate AllDots(s: string)
  {
    forall i :: 0 <= i < |s| ==> s[i] == '.'
  }

  /** `os.path.splitext(name)[0]` for a name that holds no path separator:
      the name up to its last dot, unless everything before that dot is
      dots too (a hidden file such as `.tif` has no extension). Read from
      the back: a final dot is the last dot; otherwise the last dot, if it
      cuts, is that of the name without its final character. */
  function Stem(name: string): (stem: string)
    ensures |stem| <= |name| && name[..|stem|] == stem
  {
    if name == [] then name
    else
      var n := |name| - 1;
      if name[n] == '.' then (if AllDots(name[..n]) then name else name[..n])
      else
        var inner := Stem(name[..n]);
        if |inner| < n then inner else name
  }

  /** A name made of a base that is not all dots, a dot, and a dot-free
      extension has that base as its stem. */
  lemma {:induction false} StemOfExtension(base: string, ext: string)
    requires !AllDots(base)
    requires '.' !in ext
    ensures Stem(base + "." + ext) == base
  {
    var name := base + "." + ext;
    var n := |name| - 1;
    if ext == [] {
      assert name[..n] == base;
    } else {
      var shorter := ext[..|ext| - 1];
      assert name[..n] == base + "." + shorter;
      StemOfExtension(base, shorter);
    }
  }

  /** A name with no dot is its own stem. */
  lemma {:induction false} StemWithoutDot(name: string)
    requires '.' !in name
    ensures Stem(name) == name
  {
    if name != [] {
      var n := |name| - 1;
      StemWithoutDot(name[..n]);
    }
  }

  /** A hidden file, leading dots and then a dot-free name, has no
      extension: its stem is the whole name. */
  lemma {:induction false} StemOfHidden(dots: string, rest: string)
    requires AllDots(dots)
    requires '.' !in rest
    ensures Stem(dots + rest) == dots + rest
  {
    var name := dots + rest;
    if rest == [] {
      assert name == dots;
      if name != [] {
        assert AllDots(name[..|name| - 1]);
      }
    } else {
      var shorter := rest[..|rest| - 1];
      assert name[..|name| - 1] == dots + shorter;
      StemOfHidden(dots, shorter);
    }
  }

  /** Python's `a < b` on strings: code-point lexicographic order. */
  predicate LexLess(a: string, b: string): (less: bool)
    ensures less && a != [] ==> b != [] && a[0] <= b[0]
  {
    if a == [] then b != []
    else if b == [] then false
    else if a[0] != b[0] then a[0] < b[0]
    else LexLess(a[1..], b[1..])
  }

  /** The order is strict: no string is less than itself. */
  lemma {:induction false} LexLessIrreflexive(a: string)
    ensures !LexLess(a, a)
  {
    if a != [] {
      LexLessIrreflexive(a[1..]);
    }
  }

  /** A proper extension of a string is greater than it. */
  lemma {:induction false} LexLessExtension(a: string, tail: string)
    requires tail != []
    ensures LexLess(a, a + tail)
  {
    if a != [] {
      assert (a + tail)[1..] == a[1..] + tail;
      LexLessExtension(a[1..], tail);
    }
  }

  /** The order is transitive. */
  lemma {:induction false} LexLessTransitive(a: string, b: string, c: string)
    requires LexLess(a, b) && LexLess(b, c)
    ensures LexLess(a, c)
  {
    if a != [] && b != [] && c != [] && a[0] == b[0] && b[0] == c[0] {
      LexLessTransitive(a[1..], b[1..], c[1..]);
    }
  }

  /** Any two different strings are ordered one way or the other. */
  lemma {:induction false} LexLessTotal(a: string, b: string)
    requires a != b
    ensures LexLess(a, b) || LexLess(b, a)
  {
    if a != [] && b != [] && a[0] == b[0] {
      assert a == [a[0]] + a[1..] && b == [b[0]] + b[1..];
      LexLessTotal(a[1..], b[1..]);
    }
  }
}
