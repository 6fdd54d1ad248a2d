// JavaScript value semantics the handlers rely on: optional request fields,
// the falsiness used by `a || b`, ASCII lower-casing, `startsWith` and
// `String.prototype.split` with a one-character separator.
module Js {

  /** A request field that may be absent (`undefined`/`null`) or present. */
  datatype Option<+T> = None | Some(value: T)

  /** A string field is truthy when it is present and not the empty string. */
  predicate Truthy(o: Option<string>) {
    o.Some? && o.value != ""
  }

  /** A numeric field is truthy when it is present and not zero. */
  predicate TruthyNum(o: Option<int>) {
    o.Some? && o.value != 0
  }

  /** `a || b` on two optional strings: `a` when truthy, otherwise `b`. */
  function Or(a: Option<string>, b: Option<string>): (r: Option<string>)
    ensures Truthy(r) <==> Truthy(a) || Truthy(b)
    ensures Truthy(a) ==> r == a
    ensures !Truthy(a) ==> r == b
  {
    if Truthy(a) then a else b
  }

  /** `a || b` on two optional numbers (0 is falsy). */
  function OrNum(a: Option<int>, b: Option<int>): (r: Option<int>)
    ensures TruthyNum(r) <==> TruthyNum(a) || TruthyNum(b)
    ensures TruthyNum(a) ==> r == a
    ensures !TruthyNum(a) ==> r == b
  {
    if TruthyNum(a) then a else b
  }

  /** `a || "default"`: the value of `a` when truthy, the (non-empty) default otherwise. */
  function OrElse(a: Option<string>, default: string): (r: string)
    ensures Truthy(a) ==> r == a.value
    ensures !Truthy(a) ==> r == default
  {
    if Truthy(a) then a.value else default
  }

  /** `a || null`: a falsy string is stored as SQL NULL. */
  function OrNull(a: Option<string>): (r: Option<string>)
    ensures r.None? <==> !Truthy(a)
    ensures r.Some? ==> r == a && r.value != ""
  {
    if Truthy(a) then a else None
  }

  function LowerChar(c: char): char {
    if 'A' <= c <= 'Z' then (c as int + 32) as char else c
  }

  predicate IsLowerAscii(s: string) {
    forall i :: 0 <= i < |s| ==> !('A' <= s[i] <= 'Z')
  }

  /** `toLowerCase()` restricted to ASCII letters. */
  function ToLower(s: string): (r: string)
    ensures |r| == |s|
    ensures forall i :: 0 <= i < |s| ==> r[i] == LowerChar(s[i])
    ensures IsLowerAscii(r)
  {
    if s == [] then [] else [LowerChar(s[0])] + ToLower(s[1..])
  }

  /** Lower-casing is idempotent, and a lower-case string is its own lower case. */
  lemma ToLowerOfLower(s: string)
    requires IsLowerAscii(s)
    ensures ToLower(s) == s
  {
    assert forall i :: 0 <= i < |s| ==> ToLower(s)[i] == s[i];
  }

  /** `s.startsWith(prefix)`: s is prefix followed by something. */
  predicate StartsWith(s: string, prefix: string): (b: bool)
    ensures b <==> exists rest :: s == prefix + rest
  {
    assert |prefix| <= |s| && s[..|prefix|] == prefix ==> s == prefix + s[|prefix|..];
    |prefix| <= |s| && s[..|prefix|] == prefix
  }

  /** `s.split(sep)` for a one-character separator: the pieces between separators, always at least one. */
  function Split(s: string, sep: char): (pieces: seq<string>)
    ensures |pieces| >= 1
    ensures forall i :: 0 <= i < |pieces| ==> sep !in pieces[i]
    decreases |s|
  {
    if s == [] then [""]
    else
      var rest := Split(s[1..], sep);
      if s[0] == sep then [""] + rest
      else [[s[0]] + rest[0]] + rest[1..]
  }

  /**
   * The inverse of Split: pieces glued back with the separator. Splitting the
   * result again gives back any non-empty list of separator-free pieces.
   */
  function Join(pieces: seq<string>, sep: char): (s: string)
    ensures |pieces| >= 1 && (forall i :: 0 <= i < |pieces| ==> sep !in pieces[i]) ==> Split(s, sep) == pieces
    decreases |pieces|
  {
    if pieces == [] then ""
    else if |pieces| == 1 then
      assert sep !in pieces[0] ==> Split(pieces[0], sep) == [pieces[0]] by {
        if sep !in pieces[0] { SplitNoSeparator(pieces[0], sep); }
      }
      pieces[0]
    else
      var rest := Join(pieces[1..], sep);
      assert sep !in pieces[0] ==> Split(pieces[0] + [sep] + rest, sep) == [pieces[0]] + Split(rest, sep) by {
        if sep !in pieces[0] { SplitAtFirst(pieces[0], sep, rest); }
      }
      pieces[0] + [sep] + rest
  }

  function Occurrences(s: string, c: char): nat {
    if s == [] then 0 else (if s[0] == c then 1 else 0) + Occurrences(s[1..], c)
  }

  /** Splitting and joining again gives back the original string. */
  lemma {:induction false} JoinSplit(s: string, sep: char)
    ensures Join(Split(s, sep), sep) == s
    decreases |s|
  {
    if s != [] {
      var rest := Split(s[1..], sep);
      JoinSplit(s[1..], sep);
      if s[0] == sep {
        assert Split(s, sep) == [""] + rest;
        assert s == [s[0]] + s[1..];
      } else {
        var p := Split(s, sep);
        assert p == [[s[0]] + rest[0]] + rest[1..];
        if |rest| == 1 {
          assert s == [s[0]] + rest[0];
        } else {
          assert p[1..] == rest[1..];
          assert Join(rest, sep) == rest[0] + [sep] + Join(rest[1..], sep);
          assert s == [s[0]] + s[1..];
        }
      }
    }
  }

  /** There is exactly one more piece than there are separators. */
  lemma {:induction false} SplitCount(s: string, sep: char)
    ensures |Split(s, sep)| == Occurrences(s, sep) + 1
    decreases |s|
  {
    if s != [] {
      SplitCount(s[1..], sep);
    }
  }

  /** A string without the separator is a single piece. */
  lemma {:induction false} SplitNoSeparator(w: string, sep: char)
    requires sep !in w
    ensures Split(w, sep) == [w]
    decreases |w|
  {
    if w != [] {
      assert sep !in w[1..];
      SplitNoSeparator(w[1..], sep);
      assert [w[0]] + w[1..] == w;
    }
  }

  /** The first piece is the text before the first separator. */
  lemma {:induction false} SplitAtFirst(w: string, sep: char, t: string)
    requires sep !in w
    ensures Split(w + [sep] + t, sep) == [w] + Split(t, sep)
    decreases |w|
  {
    if w == [] {
      assert w + [sep] + t == [sep] + t;
      assert ([sep] + t)[1..] == t;
    } else {
      var s := w + [sep] + t;
      assert s[0] == w[0] && s[1..] == w[1..] + [sep] + t;
      assert sep !in w[1..];
      SplitAtFirst(w[1..], sep, t);
      assert [w[0]] + w[1..] == w;
    }
  }
}
