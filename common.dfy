/** Values and string helpers shared by the request handler and the client page:
    an Option type, bytes, and the few JavaScript string operations both files use
    (`split` on a one-character separator, ASCII `toLowerCase`, `startsWith`). */
module Common {

  datatype Option<T> = None | Some(value: T)

  newtype byte = b: int | 0 <= b < 256

  /** `parts.join(sep)`: the parts with one separator between neighbours. */
  function Join(parts: seq<string>, sep: char): string
  {
    if parts == [] then []
    else if |parts| == 1 then parts[0]
    else parts[0] + [sep] + Join(parts[1..], sep)
  }

  /** `s.split(sep)` for a one-character separator; never empty. */
  function Split(s: string, sep: char): (parts: seq<string>)
    ensures |parts| >= 1
    decreases |s|
  {
    if s == [] then [[]]
    else
      var rest := Split(s[1..], sep);
      if s[0] == sep then [[]] + rest
      else [[s[0]] + rest[0]] + rest[1..]
  }

  /** No piece holds the separator, and joining the pieces back gives the original. */
  lemma {:induction false} SplitJoin(s: string, sep: char)
    ensures forall k :: 0 <= k < |Split(s, sep)| ==> sep !in Split(s, sep)[k]
    ensures Join(Split(s, sep), sep) == s
    decreases |s|
  {
    if s != [] {
      SplitJoin(s[1..], sep);
      var rest := Split(s[1..], sep);
      if s[0] == sep {
        assert s == [sep] + s[1..];
        assert Split(s, sep)[1..] == rest;
      } else {
        assert s == [s[0]] + s[1..];
        var parts := Split(s, sep);
        assert parts[1..] == rest[1..];
        if |rest| > 1 {
          assert Join(rest, sep) == rest[0] + [sep] + Join(rest[1..], sep);
        }
      }
    }
  }

  /** The first piece is a prefix of the string and holds no separator. */
  lemma {:induction false} SplitFirstIsPrefix(s: string, sep: char)
    ensures StartsWith(s, Split(s, sep)[0])
    ensures sep !in Split(s, sep)[0]
    decreases |s|
  {
    if s != [] {
      var t := s[1..];
      assert s == [s[0]] + t;
      SplitCons(s[0], t, sep);
      if s[0] != sep {
        SplitFirstIsPrefix(t, sep);
        var first := Split(t, sep)[0];
        assert t[..|first|] == first;
        assert s[..|first| + 1] == [s[0]] + t[..|first|];
      }
    }
  }

  /** The last element, as `Array.prototype.pop` returns it. */
  function Last<T>(xs: seq<T>): T
    requires |xs| >= 1
  {
    xs[|xs| - 1]
  }

  /** Split on a string that starts with c. */
  lemma SplitCons(c: char, t: string, sep: char)
    ensures Split([c] + t, sep) ==
              if c == sep then [[]] + Split(t, sep)
              else [[c] + Split(t, sep)[0]] + Split(t, sep)[1..]
  {
    assert ([c] + t)[1..] == t;
  }

  /** Splitting around one separator splits each side independently. */
  lemma {:induction false} SplitAround(a: string, sep: char, b: string)
    ensures Split(a + [sep] + b, sep) == Split(a, sep) + Split(b, sep)
    decreases |a|
  {
    if a == [] {
      assert a + [sep] + b == [sep] + b;
      SplitCons(sep, b, sep);
    } else {
      assert a == [a[0]] + a[1..];
      assert a + [sep] + b == [a[0]] + (a[1..] + [sep] + b);
      SplitAround(a[1..], sep, b);
      SplitAroundStep(a[0], a[1..], sep, b);
    }
  }

  /** The inductive step of SplitAround: one more character in front. */
  lemma SplitAroundStep(c: char, a: string, sep: char, b: string)
    requires Split(a + [sep] + b, sep) == Split(a, sep) + Split(b, sep)
    ensures Split([c] + (a + [sep] + b), sep) == Split([c] + a, sep) + Split(b, sep)
  {
    SplitCons(c, a + [sep] + b, sep);
    SplitCons(c, a, sep);
    PrependToFirst(if c == sep then [] else [c], c == sep, Split(a, sep), Split(b, sep));
  }

  /** Extending the first piece, or adding an empty piece in front, commutes with
      appending more pieces. */
  lemma PrependToFirst(p: string, isSep: bool, x: seq<string>, y: seq<string>)
    requires |x| >= 1
    ensures isSep ==> [[]] + (x + y) == ([[]] + x) + y
    ensures !isSep ==> [p + (x + y)[0]] + (x + y)[1..] == ([p + x[0]] + x[1..]) + y
  {
    assert (x + y)[0] == x[0];
    assert (x + y)[1..] == x[1..] + y;
  }

  /** A string without the separator is a single piece. */
  lemma {:induction false} SplitWithoutSeparator(s: string, sep: char)
    requires sep !in s
    ensures Split(s, sep) == [s]
    decreases |s|
  {
    if s != [] {
      SplitWithoutSeparator(s[1..], sep);
      assert s == [s[0]] + s[1..];
    }
  }

  /** The last piece is what follows the last separator. */
  lemma SplitLastPiece(stem: string, sep: char, suffix: string)
    requires sep !in suffix
    ensures Last(Split(stem + [sep] + suffix, sep)) == suffix
  {
    SplitAround(stem, sep, suffix);
    SplitWithoutSeparator(suffix, sep);
  }

  /** The first piece is what precedes the first separator. */
  lemma SplitFirstPiece(stem: string, sep: char, rest: string)
    requires sep !in stem
    ensures Split(stem + [sep] + rest, sep)[0] == stem
  {
    SplitAround(stem, sep, rest);
    SplitWithoutSeparator(stem, sep);
  }

  /** ASCII `toLowerCase` on one character. */
  function LowerChar(c: char): (r: char)
    ensures !('A' <= r <= 'Z')
    ensures 'A' <= c <= 'Z' ==> r as int == c as int + 32
    ensures !('A' <= c <= 'Z') ==> r == c
  {
    if 'A' <= c <= 'Z' then (c as int + 32) as char else c
  }

  /** `s.toLowerCase()` restricted to ASCII letters. */
  function Lower(s: string): (r: string)
    ensures |r| == |s|
  {
    if s == [] then [] else [LowerChar(s[0])] + Lower(s[1..])
  }

  /** Each character is lowered in place. */
  lemma {:induction false} LowerAt(s: string)
    ensures forall i :: 0 <= i < |s| ==> Lower(s)[i] == LowerChar(s[i])
    decreases |s|
  {
    if s != [] {
      LowerAt(s[1..]);
    }
  }

  /** `s.startsWith(prefix)`. */
  predicate StartsWith(s: string, prefix: string)
  {
    |prefix| <= |s| && s[..|prefix|] == prefix
  }
}
