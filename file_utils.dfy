/** The client's pure display helpers: the icon shown for a file type and the
    breadcrumb form of a path. */
module FileUtils {
  import opened JsString

  /** The icons the file list shows. */
  datatype Icon = Image | Video | Music | FileText | FileType | Table | Presentation | File

  /** The media-type prefixes, tested first and in this order. */
  predicate HasMediaPrefix(t: string) {
    StartsWith(t, "image/") || StartsWith(t, "video/") ||
    StartsWith(t, "audio/") || StartsWith(t, "text/")
  }

  /** getFileIcon: the first rule the type meets decides; the four prefix
      rules come before the three substring rules, and a type meeting none
      gets the generic icon. */
  function GetFileIcon(t: string): (icon: Icon)
    ensures icon == Image <==> StartsWith(t, "image/")
    ensures icon == Video <==> !StartsWith(t, "image/") && StartsWith(t, "video/")
    ensures icon == Music <==>
      !StartsWith(t, "image/") && !StartsWith(t, "video/") && StartsWith(t, "audio/")
    ensures icon == FileText <==>
      !StartsWith(t, "image/") && !StartsWith(t, "video/") && !StartsWith(t, "audio/") &&
      StartsWith(t, "text/")
    ensures icon == FileType <==> !HasMediaPrefix(t) && Contains(t, "pdf")
    ensures icon == Table <==>
      !HasMediaPrefix(t) && !Contains(t, "pdf") && Contains(t, "spreadsheet")
    ensures icon == Presentation <==>
      !HasMediaPrefix(t) && !Contains(t, "pdf") && !Contains(t, "spreadsheet") &&
      Contains(t, "presentation")
    ensures icon == File <==>
      !HasMediaPrefix(t) && !Contains(t, "pdf") && !Contains(t, "spreadsheet") &&
      !Contains(t, "presentation")
  {
    if StartsWith(t, "image/") then Image
    else if StartsWith(t, "video/") then Video
    else if StartsWith(t, "audio/") then Music
    else if StartsWith(t, "text/") then FileText
    else if Contains(t, "pdf") then FileType
    else if Contains(t, "spreadsheet") then Table
    else if Contains(t, "presentation") then Presentation
    else File
  }

  /** The four prefixes differ in their first character, so a type has at
      most one of them and their order among themselves does not matter: each
      prefix alone decides its icon. */
  lemma PrefixDecides(t: string)
    ensures GetFileIcon(t) == Image <==> StartsWith(t, "image/")
    ensures GetFileIcon(t) == Video <==> StartsWith(t, "video/")
    ensures GetFileIcon(t) == Music <==> StartsWith(t, "audio/")
    ensures GetFileIcon(t) == FileText <==> StartsWith(t, "text/")
  {
    var prefixes := ["image/", "video/", "audio/", "text/"];
    forall i | 0 <= i < |prefixes| && StartsWith(t, prefixes[i])
      ensures t[0] == prefixes[i][0]
    {
    }
  }

  /** A prefix rule wins over every substring rule: a type with a media
      prefix that contains "pdf" (such as `text/pdf`) gets its prefix's icon,
      never the pdf one. */
  lemma PrefixBeatsSubstring(t: string)
    requires HasMediaPrefix(t) && Contains(t, "pdf")
    ensures GetFileIcon(t) != FileType
    ensures GetFileIcon(t) == Image || GetFileIcon(t) == Video ||
            GetFileIcon(t) == Music || GetFileIcon(t) == FileText
  {
  }

  /** The substring rules are tried in order, wherever the substrings stand:
      a type without a media prefix that names a spreadsheet and, later, a
      pdf gets the pdf icon. */
  lemma SubstringOrder(a: string, b: string, c: string)
    requires !HasMediaPrefix(a + "spreadsheet" + b + "pdf" + c)
    ensures GetFileIcon(a + "spreadsheet" + b + "pdf" + c) == FileType
  {
    var t := a + "spreadsheet" + b + "pdf" + c;
    var k := |a| + 11 + |b|;
    assert t[k..k + 3] == "pdf" by {
      assert t == (a + "spreadsheet" + b) + "pdf" + c;
    }
    assert OccursAt(t, "pdf", k);
    ContainsIff(t, "pdf");
  }

  /** Whatever the type, some icon is chosen, and the substring icons are
      chosen only for a type where the substring occurs at some index. */
  lemma SubstringIconsOccur(t: string)
    ensures GetFileIcon(t) == FileType ==> exists i :: OccursAt(t, "pdf", i)
    ensures GetFileIcon(t) == Table ==> exists i :: OccursAt(t, "spreadsheet", i)
    ensures GetFileIcon(t) == Presentation ==> exists i :: OccursAt(t, "presentation", i)
  {
    ContainsIff(t, "pdf");
    ContainsIff(t, "spreadsheet");
    ContainsIff(t, "presentation");
  }

  /** The pieces of a split that are not empty (`filter(Boolean)` on strings). */
  function NonEmpty(parts: seq<string>): (kept: seq<string>)
    ensures forall s :: s in kept ==> s in parts && s != ""
    ensures forall s :: s in parts && s != "" ==> s in kept
  {
    if parts == [] then []
    else
      assert parts == [parts[0]] + parts[1..];
      (if parts[0] == "" then [] else [parts[0]]) + NonEmpty(parts[1..])
  }

  /** The segments of a path: the non-empty pieces between its slashes. */
  function Segments(p: string): (segs: seq<string>)
    ensures forall s :: s in segs ==> s != "" && '/' !in s
  {
    NonEmpty(Split(p, '/'))
  }

  /** formatPath: the segments of the path, in order, joined by " / ". The
      breadcrumb is empty exactly when the path has no segment, and otherwise
      starts with the first segment and ends with the last. */
  function FormatPath(p: string): (r: string)
    ensures r == "" <==> Segments(p) == []
    ensures Segments(p) != [] ==> Segments(p)[0] <= r
    ensures Segments(p) != [] ==> var last := Segments(p)[|Segments(p)| - 1];
      |last| <= |r| && r[|r| - |last|..] == last
  {
    var segs := Segments(p);
    assert segs != [] ==> segs[0] in segs;
    Join(segs, " / ")
  }

  lemma {:induction false} NonEmptyConcat(a: seq<string>, b: seq<string>)
    ensures NonEmpty(a + b) == NonEmpty(a) + NonEmpty(b)
  {
    if a != [] {
      NonEmptyConcat(a[1..], b);
      var head := if a[0] == "" then [] else [a[0]];
      assert (a + b)[0] == a[0];
      assert (a + b)[1..] == a[1..] + b;
      assert NonEmpty(a + b) == head + NonEmpty(a[1..] + b);
      assert NonEmpty(a) == head + NonEmpty(a[1..]);
      assert head + (NonEmpty(a[1..]) + NonEmpty(b)) == (head + NonEmpty(a[1..])) + NonEmpty(b);
    } else {
      assert a + b == b;
    }
  }

  /** Splitting at a separator between two strings splits each of them. */
  lemma {:induction false} SplitConcat(a: string, b: string, sep: char)
    ensures Split(a + [sep] + b, sep) == Split(a, sep) + Split(b, sep)
  {
    if a == [] {
      assert a + [sep] + b == [sep] + b;
      SplitCons(sep, b, sep);
    } else {
      var c, a' := a[0], a[1..];
      SplitConcat(a', b, sep);
      assert a == [c] + a';
      assert a + [sep] + b == [c] + (a' + [sep] + b);
      SplitCons(c, a' + [sep] + b, sep);
      SplitCons(c, a', sep);
      PrependPiece(c, Split(a', sep), Split(b, sep), sep);
    }
  }

  /** One step of `Split`: a leading separator starts an empty piece, any
      other character joins the first piece. */
  lemma SplitCons(c: char, x: string, sep: char)
    ensures Split([c] + x, sep) == Cons(c, Split(x, sep), sep)
  {
    assert ([c] + x)[1..] == x;
  }

  /** The pieces after a character `c` is put in front, given the pieces
      without it. */
  function Cons(c: char, parts: seq<string>, sep: char): seq<string>
    requires |parts| >= 1
  {
    if c == sep then [[]] + parts else [[c] + parts[0]] + parts[1..]
  }

  lemma PrependPiece(c: char, r: seq<string>, t: seq<string>, sep: char)
    requires |r| >= 1
    ensures Cons(c, r + t, sep) == Cons(c, r, sep) + t
  {
    if c == sep {
      assert [[]] + (r + t) == ([[]] + r) + t;
    } else {
      assert (r + t)[0] == r[0];
      assert (r + t)[1..] == r[1..] + t;
    }
  }

  /** A slash between two strings separates their segments. */
  lemma SegmentsConcat(a: string, b: string)
    ensures Segments(a + "/" + b) == Segments(a) + Segments(b)
  {
    SplitConcat(a, b, '/');
    NonEmptyConcat(Split(a, '/'), Split(b, '/'));
  }

  /** A string without a slash is one segment, or none when it is empty. */
  lemma SegmentsPiece(s: string)
    requires '/' !in s
    ensures Segments(s) == if s == "" then [] else [s]
  {
    SplitPiece(s, "", '/');
    assert [s][1..] == [];
    assert NonEmpty([s]) == (if s == "" then [] else [s]) + NonEmpty([]);
  }

  /** Segments joined with slashes come back as the same segments. */
  lemma SegmentsJoin(segs: seq<string>)
    requires forall s :: s in segs ==> s != "" && '/' !in s
    ensures Segments(Join(segs, "/")) == segs
  {
    if segs != [] {
      SplitJoin(segs, '/');
      NonEmptyAll(segs);
    }
  }

  lemma {:induction false} NonEmptyAll(parts: seq<string>)
    requires forall s :: s in parts ==> s != ""
    ensures NonEmpty(parts) == parts
  {
    if parts != [] {
      assert parts[0] in parts;
      assert forall s :: s in parts[1..] ==> s in parts;
      NonEmptyAll(parts[1..]);
    }
  }

  /** The breadcrumb of segments joined with slashes is those segments joined
      with " / ". */
  lemma FormatPathJoin(segs: seq<string>)
    requires forall s :: s in segs ==> s != "" && '/' !in s
    ensures FormatPath(Join(segs, "/")) == Join(segs, " / ")
  {
    SegmentsJoin(segs);
  }

  /** The empty path, and a path made only of slashes, format as "". */
  lemma {:induction false} FormatPathOnlySlashes(p: string)
    requires forall i :: 0 <= i < |p| ==> p[i] == '/'
    ensures Segments(p) == []
    ensures FormatPath(p) == ""
  {
    if p != [] {
      FormatPathOnlySlashes(p[1..]);
      assert Split(p, '/') == [[]] + Split(p[1..], '/');
      NonEmptyConcat([[]], Split(p[1..], '/'));
    }
  }

  /** A leading slash adds no segment. */
  lemma LeadingSlash(a: string)
    ensures Segments("/" + a) == Segments(a)
  {
    SegmentsConcat("", a);
    assert "" + "/" + a == "/" + a;
    SegmentsPiece("");
  }

  /** A trailing slash adds no segment. */
  lemma TrailingSlash(a: string)
    ensures Segments(a + "/") == Segments(a)
  {
    SegmentsConcat(a, "");
    assert a + "/" + "" == a + "/";
    SegmentsPiece("");
    assert Segments(a) + [] == Segments(a);
  }

  /** A doubled slash separates as a single one does. */
  lemma DoubleSlash(a: string, b: string)
    ensures Segments(a + "//" + b) == Segments(a + "/" + b)
  {
    SegmentsConcat(a, "/" + b);
    assert a + "/" + ("/" + b) == a + "//" + b;
    LeadingSlash(b);
    SegmentsConcat(a, b);
  }

  /** Leading, trailing and repeated slashes make no difference to the
      breadcrumb. */
  lemma FormatPathSlashes(a: string, b: string)
    ensures FormatPath("/" + a) == FormatPath(a)
    ensures FormatPath(a + "/") == FormatPath(a)
    ensures FormatPath(a + "//" + b) == FormatPath(a + "/" + b)
  {
    LeadingSlash(a);
    TrailingSlash(a);
    DoubleSlash(a, b);
  }

  /** `/a//b/` formats as `a / b`, for any two segments `a` and `b`. */
  lemma FormatPathExample(a: string, b: string)
    requires a != "" && b != "" && '/' !in a && '/' !in b
    ensures FormatPath("/" + a + "//" + b + "/") == a + " / " + b
  {
    var m := a + "//" + b;
    assert "/" + a + "//" + b + "/" == "/" + (m + "/");
    LeadingSlash(m + "/");
    TrailingSlash(m);
    DoubleSlash(a, b);
    SegmentsConcat(a, b);
    SegmentsPiece(a);
    SegmentsPiece(b);
    assert Segments("/" + a + "//" + b + "/") == [a, b];
    assert [a, b][1..] == [b];
    assert Join([a, b], " / ") == a + " / " + Join([b], " / ");
  }
}
