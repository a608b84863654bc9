/** Paths: a slash-delimited string is cut into the segment names that resolution walks. */
module Paths {

  /** A segment that names a child: not empty, not the current directory ".", without a separator. */
  predicate IsName(n: string) {
    n != "" && n != "." && '/' !in n
  }

  /** The pieces of `s` between separators, as splitting a string on '/' gives them
      (so "a//b" has an empty middle piece and "" has one empty piece). */
  function Split(s: string): (pieces: seq<string>)
    ensures |pieces| >= 1
    ensures forall i :: 0 <= i < |pieces| ==> '/' !in pieces[i]
  {
    if s == [] then [""]
    else if s[0] == '/' then [""] + Split(s[1..])
    else
      var rest := Split(s[1..]);
      [[s[0]] + rest[0]] + rest[1..]
  }

  /** The pieces glued back together with a separator between each two. */
  function Join(pieces: seq<string>): string
    requires |pieces| >= 1
  {
    if |pieces| == 1 then pieces[0] else pieces[0] + "/" + Join(pieces[1..])
  }

  /** The names among `pieces`: empty pieces and "." stand for no step at all. */
  function Names(pieces: seq<string>): (names: seq<string>)
    ensures |names| <= |pieces|
  {
    if pieces == [] then []
    else if pieces[0] == "" || pieces[0] == "." then Names(pieces[1..])
    else [pieces[0]] + Names(pieces[1..])
  }

  /** The segments resolution walks for `path`; "" and "." give none, which is the root. */
  function Segments(path: string): (segs: seq<string>)
    ensures forall i :: 0 <= i < |segs| ==> IsName(segs[i])
  {
    var pieces := Split(path);
    NamesAreNames(pieces);
    Names(pieces)
  }

  lemma {:induction false} NamesAreNames(pieces: seq<string>)
    requires forall i :: 0 <= i < |pieces| ==> '/' !in pieces[i]
    ensures forall i :: 0 <= i < |Names(pieces)| ==> IsName(Names(pieces)[i])
  {
    if pieces != [] {
      NamesAreNames(pieces[1..]);
    }
  }

  /** Joining undoes splitting: the pieces of a string glue back into that string. */
  lemma {:induction false} JoinSplit(s: string)
    ensures Join(Split(s)) == s
  {
    if s != [] {
      JoinSplit(s[1..]);
      var rest := Split(s[1..]);
      if s[0] != '/' && |rest| > 1 {
        assert Join(rest) == rest[0] + "/" + Join(rest[1..]);
        assert rest[1..] == Split(s)[1..];
      }
    }
  }

  /** Splitting at a separator placed between two strings splits each of them on its own. */
  lemma {:induction false} SplitConcat(p: string, q: string)
    ensures Split(p + "/" + q) == Split(p) + Split(q)
  {
    var s := p + "/" + q;
    if p == [] {
      assert s == "/" + q && s[1..] == q;
    } else {
      assert s[0] == p[0] && s[1..] == p[1..] + "/" + q;
      SplitConcat(p[1..], q);
    }
  }

  /** A string without a separator is a single piece. */
  lemma {:induction false} SplitNoSeparator(s: string)
    requires '/' !in s
    ensures Split(s) == [s]
  {
    if s != [] {
      SplitNoSeparator(s[1..]);
      assert [s[0]] + s[1..] == s;
    }
  }

  lemma {:induction false} NamesConcat(a: seq<string>, b: seq<string>)
    ensures Names(a + b) == Names(a) + Names(b)
  {
    if a == [] {
      assert a + b == b;
    } else {
      assert (a + b)[0] == a[0] && (a + b)[1..] == a[1..] + b;
      NamesConcat(a[1..], b);
    }
  }

  /** The path `prefix + "/" + path` walks the segments of `prefix` and then those of `path`;
      this is what makes a scoped builder equivalent to spelling the prefix out. */
  lemma SegmentsConcat(prefix: string, path: string)
    ensures Segments(prefix + "/" + path) == Segments(prefix) + Segments(path)
  {
    SplitConcat(prefix, path);
    NamesConcat(Split(prefix), Split(path));
  }

  /** A single name is a path of exactly one segment. */
  lemma SegmentsOfName(n: string)
    requires IsName(n)
    ensures Segments(n) == [n]
  {
    SplitNoSeparator(n);
  }

  /** Joining names and splitting the result gives the names back: every list of names is
      the segment list of some path. */
  lemma {:induction false} SegmentsJoin(names: seq<string>)
    requires |names| >= 1
    requires forall i :: 0 <= i < |names| ==> IsName(names[i])
    ensures Segments(Join(names)) == names
  {
    if |names| == 1 {
      SegmentsOfName(names[0]);
    } else {
      SegmentsJoin(names[1..]);
      SegmentsConcat(names[0], Join(names[1..]));
      SegmentsOfName(names[0]);
    }
  }
}
