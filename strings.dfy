/**
 * The string operations of the Java and Apache commons-io libraries that the
 * command-line parser and the extractor depend on, stated over `seq<char>`.
 */
module Strings {
  import opened Wrappers

  /** `s.startsWith(prefix)` */
  predicate StartsWith(s: string, prefix: string) {
    |prefix| <= |s| && s[..|prefix|] == prefix
  }

  /** `s.endsWith(suffix)` */
  predicate EndsWith(s: string, suffix: string) {
    |suffix| <= |s| && s[|s| - |suffix|..] == suffix
  }

  /** A string that starts with `p + q` starts with `p`. */
  lemma StartsWithPart(s: string, p: string, q: string)
    requires StartsWith(s, p + q)
    ensures StartsWith(s, p)
  {
    assert s[..|p|] == (p + q)[..|p|];
  }

  /** `s.indexOf(c)`: the first position of `c`, or -1. */
  function IndexOf(s: string, c: char): (r: int)
    ensures -1 <= r < |s|
    ensures r == -1 <==> c !in s
    ensures 0 <= r ==> s[r] == c && c !in s[..r]
  {
    if |s| == 0 then -1
    else if s[0] == c then 0
    else
      var k := IndexOf(s[1..], c);
      assert s[1..][..if k < 0 then 0 else k] == s[1..if k < 0 then 1 else k + 1];
      if k == -1 then -1 else k + 1
  }

  /** `s.lastIndexOf(c)`: the last position of `c`, or -1. */
  function LastIndexOf(s: string, c: char): (r: int)
    ensures -1 <= r < |s|
    ensures r == -1 <==> c !in s
    ensures 0 <= r ==> s[r] == c && c !in s[r + 1..]
  {
    if |s| == 0 then -1
    else if s[|s| - 1] == c then |s| - 1
    else
      var k := LastIndexOf(s[..|s| - 1], c);
      assert k >= 0 ==> s[k + 1..] == s[..|s| - 1][k + 1..] + [s[|s| - 1]];
      k
  }

  /** The fields of `s` between the occurrences of `c`, empty fields included. */
  function Split(s: string, c: char): (r: seq<string>)
    ensures |r| >= 1
    ensures forall i :: 0 <= i < |r| ==> c !in r[i]
    ensures c !in s ==> r == [s]
    decreases |s|
  {
    var i := IndexOf(s, c);
    if i == -1 then [s] else [s[..i]] + Split(s[i + 1..], c)
  }

  /** The fields put back together with `c` between each two of them. */
  function JoinFields(fields: seq<string>, c: char): string
    requires |fields| >= 1
  {
    if |fields| == 1 then fields[0] else fields[0] + [c] + JoinFields(fields[1..], c)
  }

  /** Splitting loses nothing: the fields joined with `c` are the text again. */
  lemma {:induction false} SplitJoin(s: string, c: char)
    ensures JoinFields(Split(s, c), c) == s
    decreases |s|
  {
    var i := IndexOf(s, c);
    if i != -1 {
      var a, b := s[..i], s[i + 1..];
      AroundIndex(s, i);
      SplitJoin(b, c);
      SplitAtFirst(a, b, c);
      JoinCons(a, Split(b, c), c);
    }
  }

  /** A text is what comes before position `i`, the character there and the rest. */
  lemma AroundIndex(s: string, i: nat)
    requires i < |s|
    ensures s == s[..i] + [s[i]] + s[i + 1..]
  {
  }

  /** Joining a first field to the rest puts one `c` between them. */
  lemma JoinCons(a: string, tail: seq<string>, c: char)
    requires |tail| >= 1
    ensures JoinFields([a] + tail, c) == a + [c] + JoinFields(tail, c)
  {
    assert ([a] + tail)[1..] == tail;
  }

  /**
   * Java's `split` drops the empty strings at the end of the field list.
   * The one exception is the empty text, whose split Java gives as `[""]`
   * where this gives `[]`. That differs only in field 0, which no handler reads.
   */
  function DropTrailingEmpty(fields: seq<string>): (r: seq<string>)
    ensures |r| <= |fields| && r == fields[..|r|]
    ensures |r| > 0 ==> r[|r| - 1] != ""
    ensures forall i :: |r| <= i < |fields| ==> fields[i] == ""
  {
    if |fields| > 0 && fields[|fields| - 1] == "" then DropTrailingEmpty(fields[..|fields| - 1])
    else fields
  }

  /**
   * `arg.split("=")[1]`: the second field of the split. None stands for the
   * ArrayIndexOutOfBoundsException Java throws when there is no such field.
   */
  function SplitValue(arg: string): Option<string> {
    var fields := DropTrailingEmpty(Split(arg, '='));
    if |fields| >= 2 then Some(fields[1]) else None
  }

  lemma SplitAtFirst(a: string, b: string, c: char)
    requires c !in a
    ensures Split(a + [c] + b, c) == [a] + Split(b, c)
  {
    var s := a + [c] + b;
    var i := IndexOf(s, c);
    assert s[|a|] == c && s[..|a|] == a;
    assert i == |a|;
    assert s[i + 1..] == b;
  }

  /** A field that is not empty survives the removal of trailing empty fields. */
  lemma KeepsNonEmptyField(fields: seq<string>, j: nat)
    requires j < |fields| && fields[j] != ""
    ensures j < |DropTrailingEmpty(fields)|
  {
  }

  /** `"key=value".split("=")[1]` is the value when the value holds no `=`. */
  lemma {:induction false} ValueAfterEquals(key: string, v: string)
    requires '=' !in key && '=' !in v && v != ""
    ensures SplitValue(key + "=" + v) == Some(v)
  {
    assert key + "=" + v == key + ['='] + v;
    SplitAtFirst(key, v, '=');
    assert Split(v, '=') == [v];
    KeepsNonEmptyField([key, v], 1);
  }

  /** A value that holds `=` is cut at its first `=`. */
  lemma {:induction false} ValueCutAtEquals(key: string, v: string, rest: string)
    requires '=' !in key && '=' !in v && v != ""
    ensures SplitValue(key + "=" + v + "=" + rest) == Some(v)
  {
    assert key + "=" + v + "=" + rest == key + ['='] + (v + ['='] + rest);
    SplitAtFirst(key, v + ['='] + rest, '=');
    SplitAtFirst(v, rest, '=');
    var fields := [key] + ([v] + Split(rest, '='));
    assert Split(key + "=" + v + "=" + rest, '=') == fields;
    KeepsNonEmptyField(fields, 1);
    assert DropTrailingEmpty(fields)[1] == fields[1];
  }

  /** A token without `=`, or with nothing after it, has no value. */
  lemma {:induction false} NoValue(key: string)
    requires '=' !in key
    ensures SplitValue(key) == None
    ensures SplitValue(key + "=") == None
  {
    assert Split(key, '=') == [key];
    assert key + "=" == key + ['='] + [];
    SplitAtFirst(key, [], '=');
    assert Split([], '=') == [[]];
    var fields := [key, []];
    assert DropTrailingEmpty(fields) == DropTrailingEmpty([key]);
  }

  /** No position after the last `c` holds a `c`. */
  lemma NoneAfterLast(s: string, c: char)
    ensures forall k :: LastIndexOf(s, c) < k < |s| ==> s[k] != c
  {
    var r := LastIndexOf(s, c);
    assert forall k :: r < k < |s| ==> s[k] == s[r + 1..][k - r - 1];
  }

  /** FilenameUtils.indexOfLastSeparator: the last `/` or `\`, or -1. */
  function IndexOfLastSeparator(s: string): (r: int)
    ensures -1 <= r < |s|
    ensures 0 <= r ==> s[r] == '/' || s[r] == '\\'
    ensures r == -1 <==> '/' !in s && '\\' !in s
    ensures forall k :: r < k < |s| ==> s[k] != '/' && s[k] != '\\'
  {
    var u := LastIndexOf(s, '/');
    var w := LastIndexOf(s, '\\');
    NoneAfterLast(s, '/');
    NoneAfterLast(s, '\\');
    if u < w then w else u
  }

  /** FilenameUtils.indexOfExtension: the last `.` if no separator follows it, else -1. */
  function IndexOfExtension(s: string): (r: int)
    ensures -1 <= r < |s|
    ensures 0 <= r ==> s[r] == '.' && '.' !in s[r + 1..] && IndexOfLastSeparator(s) < r
    ensures r == -1 <==> forall k :: IndexOfLastSeparator(s) < k < |s| ==> s[k] != '.'
  {
    var d := LastIndexOf(s, '.');
    assert forall k :: d < k < |s| ==> s[k] in s[d + 1..];
    if IndexOfLastSeparator(s) > d then -1 else d
  }

  /** FilenameUtils.removeExtension */
  function RemoveExtension(s: string): string {
    var i := IndexOfExtension(s);
    if i == -1 then s else s[..i]
  }

  /** FilenameUtils.getExtension */
  function GetExtension(s: string): string {
    var i := IndexOfExtension(s);
    if i == -1 then "" else s[i + 1..]
  }

  /** `s` with every trailing `c` removed. */
  function StripTrailing(s: string, c: char): (r: string)
    ensures |r| <= |s| && r == s[..|r|]
    ensures |r| > 0 ==> r[|r| - 1] != c
    ensures forall k :: |r| <= k < |s| ==> s[k] == c
  {
    if |s| > 0 && s[|s| - 1] == c then StripTrailing(s[..|s| - 1], c) else s
  }

  /**
   * `Paths.get(p).getFileName().toString()` with the platform separator `sep`:
   * the last name element, trailing separators ignored.
   */
  function FileName(p: string, sep: char): (r: string)
    ensures sep !in r
    ensures EndsWith(StripTrailing(p, sep), r)
    ensures var t := StripTrailing(p, sep); |r| < |t| ==> t[|t| - |r| - 1] == sep
  {
    var t := StripTrailing(p, sep);
    t[LastIndexOf(t, sep) + 1..]
  }

  /** The last `c` of `a + [c] + b` is the one between them when `b` has none. */
  lemma {:induction false} LastIndexOfJoin(a: string, b: string, c: char)
    requires c !in b
    ensures LastIndexOf(a + [c] + b, c) == |a|
    decreases |b|
  {
    var s := a + [c] + b;
    if b == [] {
      assert s == a + [c];
    } else {
      var b' := b[..|b| - 1];
      assert b[|b| - 1] in b;
      assert c !in b' by {
        assert forall k :: 0 <= k < |b'| ==> b'[k] == b[k];
      }
      assert s[..|s| - 1] == a + [c] + b';
      LastIndexOfJoin(a, b', c);
    }
  }

  /**
   * `Paths.get(p)` has no name element, so `getFileName()` is null: a
   * non-empty path made only of separators (the root). The empty path has the
   * one empty name element.
   */
  predicate HasNoFileName(p: string, sep: char) {
    p != "" && StripTrailing(p, sep) == ""
  }

  /** A path without a file name has no extension either. */
  lemma RootIsNoPdf(p: string, sep: char)
    requires HasNoFileName(p, sep)
    ensures FileName(p, sep) == "" && GetExtension(FileName(p, sep)) == ""
  {
    var t := StripTrailing(p, sep);
    assert LastIndexOf(t, sep) == -1;
    assert IndexOfExtension("") == -1;
  }

  /** An extension after the last `.` that holds no `.` or separator is the extension. */
  lemma ExtensionOf(base: string, ext: string)
    requires '.' !in ext && '/' !in ext && '\\' !in ext
    ensures IndexOfExtension(base + "." + ext) == |base|
    ensures GetExtension(base + "." + ext) == ext
    ensures RemoveExtension(base + "." + ext) == base
  {
    var s := base + "." + ext;
    assert s == base + ['.'] + ext;
    LastIndexOfJoin(base, ext, '.');
    assert s[|base| + 1..] == ext && s[..|base|] == base;
    assert forall k :: |base| < k < |s| ==> s[k] == ext[k - |base| - 1];
  }

  /** A name with no separator in it is its own file name. */
  lemma FileNameOfPlain(s: string, sep: char)
    requires sep !in s
    ensures FileName(s, sep) == s
  {
    if |s| > 0 {
      assert s[|s| - 1] in s;
    }
    assert StripTrailing(s, sep) == s;
  }
}
