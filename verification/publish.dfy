/** Public ids and file paths of the published site, and the publish status
    record (tagger/publish.ts).

    Every dictionary entry gets a public id derived from its first spelling;
    ids that several entries would share are made unique by appending
    `-<entry_id>`, the one place a `-` may appear. Pages are written under
    paths built from these ids. */
module Publish {
  import opened Wrappers
  import opened Text

  // ---------------------------------------------------------------------------
  // Publish status (tagger/publish.ts:20-45)
  // ---------------------------------------------------------------------------

  /** `startTime` and `endTime` are `undefined` (`None`) or a millisecond
      clock reading; the log lines are kept as strings. */
  datatype Status = Status(startTime: Option<int>, endTime: Option<int>, log: seq<string>, errors: seq<string>)

  datatype PublishError = AlreadyRunning

  /** JavaScript truthiness of an optional number (NaN is not modelled). */
  predicate Truthy(t: Option<int>) {
    t.Some? && t.value != 0
  }

  /** The status of a fresh `PublishStatus`. */
  const Idle := Status(None, None, [], [])

  predicate IsRunning(s: Status) {
    Truthy(s.startTime) && !Truthy(s.endTime)
  }

  /** `start()` at clock reading `now`. */
  function Start(s: Status, now: int): (r: Result<Status, PublishError>)
    ensures r.Failure? <==> IsRunning(s)
    ensures r.Success? ==> r.value.startTime == Some(now) && r.value.endTime == None
    ensures r.Success? ==> r.value.log == [] && r.value.errors == []
    ensures r.Success? && now != 0 ==> IsRunning(r.value)
  {
    if IsRunning(s) then Failure(AlreadyRunning)
    else Success(Status(Some(now), None, [], []))
  }

  /** `end()` at clock reading `now`. */
  function End(s: Status, now: int): (r: Status)
    ensures r.endTime == Some(now)
    ensures r.startTime == s.startTime && r.log == s.log && r.errors == s.errors
    ensures now != 0 ==> !IsRunning(r)
  {
    s.(endTime := Some(now))
  }

  /** A publish that has ended can be started again, and one that is running
      cannot: `start` then `end` then `start` succeeds, `start` twice fails. */
  lemma StartEndStart(s: Status, t0: int, t1: int, t2: int)
    requires !IsRunning(s) && t0 != 0 && t1 != 0
    ensures Start(s, t0).Success?
    ensures Start(Start(s, t0).value, t2).Failure?
    ensures Start(End(Start(s, t0).value, t1), t2).Success?
  {
  }

  // ---------------------------------------------------------------------------
  // Public ids (tagger/publish.ts:528-572)
  // ---------------------------------------------------------------------------

  datatype Spelling = Spelling(variant: string, text: string)

  /** The fields of an `Entry` that public ids depend on. */
  datatype Entry = Entry(entryId: int, spellings: seq<Spelling>)

  /** `defaultVariant` of a `Publish`. */
  const DefaultVariant := "mm-li"

  /** The spellings of `variant`, in order. */
  function SpellingsIn(ss: seq<Spelling>, variant: string): (r: seq<Spelling>)
    ensures forall x :: x in r <==> x in ss && x.variant == variant
  {
    if |ss| == 0 then []
    else (if ss[0].variant == variant then [ss[0]] else []) + SpellingsIn(ss[1..], variant)
  }

  /** `getDefaultPublicIdBase`. */
  function DefaultPublicIdBase(e: Entry, variant: string): (r: string)
    ensures e.spellings != [] ==> exists i :: 0 <= i < |e.spellings| && r == e.spellings[i].text
    ensures e.spellings == [] ==> r == IntToString(e.entryId)
  {
    var inVariant := SpellingsIn(e.spellings, variant);
    if |inVariant| > 0 && inVariant[0].text != "" then inVariant[0].text
    else if |e.spellings| > 0 then e.spellings[0].text
    else IntToString(e.entryId)
  }

  /** The base is the first spelling in the default variant when that text is
      non-empty, else the first spelling of any variant (even an empty one),
      else the entry id: the choice stated by position in the spellings. */
  lemma DefaultBaseChoice(e: Entry, variant: string)
    ensures var base := DefaultPublicIdBase(e, variant);
      && (forall i :: 0 <= i < |e.spellings| && e.spellings[i].variant == variant && e.spellings[i].text != ""
            && (forall j :: 0 <= j < i ==> e.spellings[j].variant != variant)
            ==> base == e.spellings[i].text)
      && (((forall i :: 0 <= i < |e.spellings| ==> e.spellings[i].variant != variant) && |e.spellings| > 0)
          ==> base == e.spellings[0].text)
      && (forall i :: 0 <= i < |e.spellings| && e.spellings[i].variant == variant && e.spellings[i].text == ""
            && (forall j :: 0 <= j < i ==> e.spellings[j].variant != variant)
            ==> base == e.spellings[0].text)
      && (e.spellings == [] ==> base == IntToString(e.entryId))
  {
    forall i | 0 <= i < |e.spellings| && e.spellings[i].variant == variant
        && (forall j :: 0 <= j < i ==> e.spellings[j].variant != variant)
      ensures SpellingsIn(e.spellings, variant)[0] == e.spellings[i]
    {
      FirstInVariant(e.spellings, variant, i);
    }
    if (forall i :: 0 <= i < |e.spellings| ==> e.spellings[i].variant != variant) {
      NoneInVariant(e.spellings, variant);
    }
  }

  lemma {:induction false} FirstInVariant(ss: seq<Spelling>, variant: string, i: nat)
    requires i < |ss| && ss[i].variant == variant
    requires forall j :: 0 <= j < i ==> ss[j].variant != variant
    ensures |SpellingsIn(ss, variant)| > 0 && SpellingsIn(ss, variant)[0] == ss[i]
  {
    if i > 0 {
      FirstInVariant(ss[1..], variant, i - 1);
    }
  }

  lemma NoneInVariant(ss: seq<Spelling>, variant: string)
    requires forall i :: 0 <= i < |ss| ==> ss[i].variant != variant
    ensures SpellingsIn(ss, variant) == []
  {
  }

  predicate IsAsciiAlnum(c: char) {
    ('a' <= c <= 'z') || ('A' <= c <= 'Z') || ('0' <= c <= '9')
  }

  /** `s.replaceAll(re, '_')` for a regular expression `/[^...]/g` matching
      one code unit outside the set `keep`. */
  function ReplaceOutside(s: string, keep: char -> bool): (r: string)
    ensures |r| == |s|
    ensures forall i :: 0 <= i < |s| ==> (keep(s[i]) ==> r[i] == s[i]) && (!keep(s[i]) ==> r[i] == '_')
  {
    seq(|s|, i requires 0 <= i < |s| => if keep(s[i]) then s[i] else '_')
  }

  /** The characters `/[^a-zA-Z0-9']/` leaves alone. */
  predicate IsIdChar(c: char) {
    IsAsciiAlnum(c) || c == '\''
  }

  /** `computeDefaultPublicIdForEntry`. */
  function DefaultPublicId(e: Entry, variant: string): (r: string)
    ensures |r| == |DefaultPublicIdBase(e, variant)|
    ensures forall i :: 0 <= i < |r| ==> IsIdChar(r[i]) || r[i] == '_'
    ensures '-' !in r
  {
    ReplaceOutside(DefaultPublicIdBase(e, variant), IsIdChar)
  }

  /** The default ids of the entries, position by position. */
  function DefaultIds(entries: seq<Entry>, variant: string): (ds: seq<string>)
    ensures |ds| == |entries|
    ensures forall i :: 0 <= i < |entries| ==> ds[i] == DefaultPublicId(entries[i], variant)
  {
    seq(|entries|, i requires 0 <= i < |entries| => DefaultPublicId(entries[i], variant))
  }

  /** `duplicateItems(xs).has(x)`: `x` occurs at two positions of `xs`. */
  predicate Duplicated(xs: seq<string>, x: string) {
    exists i, j :: 0 <= i < j < |xs| && xs[i] == x && xs[j] == x
  }

  /** The public id given to `e` among `defaults`. */
  function PublicIdAmong(defaults: seq<string>, e: Entry, variant: string): string {
    var d := DefaultPublicId(e, variant);
    if Duplicated(defaults, d) then d + "-" + IntToString(e.entryId) else d
  }

  /** `computeEntryPublicIds`: entries are keys by value; two equal entries
      get the same id, as the source's `Map` gives the last of them. */
  function ComputeEntryPublicIds(entries: seq<Entry>, variant: string): (ids: map<Entry, string>)
    ensures forall e :: e in ids <==> e in entries
    ensures forall e :: e in entries ==>
      var d := DefaultPublicId(e, variant);
      && (!Duplicated(DefaultIds(entries, variant), d) ==> ids[e] == d)
      && (Duplicated(DefaultIds(entries, variant), d) ==> ids[e] == d + "-" + IntToString(e.entryId))
  {
    var defaults := DefaultIds(entries, variant);
    map e | e in entries :: PublicIdAmong(defaults, e, variant)
  }

  /** `getPublicIdForEntry`: the computed id, or `-<entry_id>` when there is
      none or it is empty. */
  function PublicIdForEntry(ids: map<Entry, string>, e: Entry): (r: string)
    ensures r != []
    ensures e in ids && ids[e] != "" ==> r == ids[e]
    ensures !(e in ids && ids[e] != "") ==> r == "-" + IntToString(e.entryId)
  {
    if e in ids && ids[e] != "" then ids[e] else "-" + IntToString(e.entryId)
  }

  /** In `d + "-" + s` with no dash in `d`, the first dash is at `|d|`. */
  lemma FirstDashAt(x: string, d: string, s: string)
    requires '-' !in d && x == d + "-" + s
    ensures |d| < |x| && x[|d|] == '-'
    ensures forall i :: 0 <= i < |d| ==> x[i] != '-'
  {
    forall i | 0 <= i < |d|
      ensures x[i] != '-'
    {
      assert x[i] == d[i];
    }
  }

  /** Splitting at the first `-`: a reserved separator recovers both parts. */
  lemma SplitAtDash(d1: string, s1: string, d2: string, s2: string)
    requires '-' !in d1 && '-' !in d2
    requires d1 + "-" + s1 == d2 + "-" + s2
    ensures d1 == d2 && s1 == s2
  {
    var x := d1 + "-" + s1;
    FirstDashAt(x, d1, s1);
    FirstDashAt(x, d2, s2);
    assert |d1| == |d2|;
    assert d1 == x[..|d1|] == d2;
    assert s1 == x[|d1| + 1..] == s2;
  }

  lemma DashIn(d: string, s: string)
    ensures '-' in d + "-" + s
  {
    assert (d + "-" + s)[|d|] == '-';
  }

  /** Entries with different `entry_id`s get different public ids, whether
      or not they are among the entries the ids were computed for. */
  lemma PublicIdsDistinct(entries: seq<Entry>, variant: string, e1: Entry, e2: Entry)
    requires e1.entryId != e2.entryId
    ensures var ids := ComputeEntryPublicIds(entries, variant);
      PublicIdForEntry(ids, e1) != PublicIdForEntry(ids, e2)
  {
    var ids := ComputeEntryPublicIds(entries, variant);
    var defaults := DefaultIds(entries, variant);
    var p1 := PublicIdForEntry(ids, e1);
    var p2 := PublicIdForEntry(ids, e2);
    if p1 == p2 {
      var s1 := IntToString(e1.entryId);
      var s2 := IntToString(e2.entryId);
      var d1 := DefaultPublicId(e1, variant);
      var d2 := DefaultPublicId(e2, variant);
      var fallback1 := !(e1 in ids && ids[e1] != "");
      var fallback2 := !(e2 in ids && ids[e2] != "");
      var dup1 := e1 in entries && Duplicated(defaults, d1);
      var dup2 := e2 in entries && Duplicated(defaults, d2);
      // Every public id is one of: d (no dash, non-empty), d + "-" + s, or "-" + s.
      if fallback1 && fallback2 {
        assert "-" + s1 == "-" + s2;
        assert s1 == ("-" + s1)[1..];
        IntToStringInjective(e1.entryId, e2.entryId);
      } else if !fallback1 && !fallback2 && dup1 && dup2 {
        SplitAtDash(d1, s1, d2, s2);
        IntToStringInjective(e1.entryId, e2.entryId);
      } else if !fallback1 && !fallback2 && !dup1 && !dup2 {
        DistinctPositions(entries, defaults, variant, e1, e2);
      } else if !fallback1 && !dup1 {
        // p1 == d1 has no dash, p2 has one.
        if !fallback2 {
          DashIn(d2, s2);
        }
      } else if !fallback2 && !dup2 {
        if !fallback1 {
          DashIn(d1, s1);
        }
      } else if fallback1 {
        // p2 == d2 + "-" + s2 with e2 duplicated; p1 == "-" + s1.
        FallbackVersusSuffixed(e1.entryId, e2.entryId, d2);
      } else {
        FallbackVersusSuffixed(e2.entryId, e1.entryId, d1);
      }
    }
  }

  /** Two entries with different ids sit at different positions; equal
      defaults there are duplicated. */
  lemma DistinctPositions(entries: seq<Entry>, defaults: seq<string>, variant: string, e1: Entry, e2: Entry)
    requires defaults == DefaultIds(entries, variant)
    requires e1 in entries && e2 in entries && e1.entryId != e2.entryId
    requires DefaultPublicId(e1, variant) == DefaultPublicId(e2, variant)
    ensures Duplicated(defaults, DefaultPublicId(e1, variant))
  {
    var d := DefaultPublicId(e1, variant);
    var i :| 0 <= i < |entries| && entries[i] == e1;
    var j :| 0 <= j < |entries| && entries[j] == e2;
    assert defaults[i] == d && defaults[j] == d;
    TwoPositions(defaults, d, i, j);
  }

  /** Two different positions holding `x` make `x` duplicated. */
  lemma TwoPositions(xs: seq<string>, x: string, i: nat, j: nat)
    requires i < |xs| && j < |xs| && i != j && xs[i] == x && xs[j] == x
    ensures Duplicated(xs, x)
  {
    if i < j {
      assert 0 <= i < j < |xs| && xs[i] == x && xs[j] == x;
    } else {
      assert 0 <= j < i < |xs| && xs[j] == x && xs[i] == x;
    }
  }

  /** The fallback `-<id1>` differs from the suffixed id `d2-<id2>` of another
      entry: when `d2` is empty the ids after the dash differ, and otherwise
      the first character of `d2` is not a dash. */
  lemma FallbackVersusSuffixed(n1: int, n2: int, d2: string)
    requires n1 != n2 && '-' !in d2
    ensures "-" + IntToString(n1) != d2 + "-" + IntToString(n2)
  {
    var s1 := IntToString(n1);
    var s2 := IntToString(n2);
    if d2 == "" {
      assert d2 + "-" + s2 == "-" + s2;
      if "-" + s1 == "-" + s2 {
        assert s1 == ("-" + s1)[1..] == ("-" + s2)[1..] == s2;
        IntToStringInjective(n1, n2);
      }
    } else {
      assert (d2 + "-" + s2)[0] == d2[0] != '-';
    }
  }

  // ---------------------------------------------------------------------------
  // Paths (tagger/publish.ts:456-458, 513-526, 574-580)
  // ---------------------------------------------------------------------------

  /** `clusterForEntry`: the first character of the public id, lower-cased. */
  function ClusterForEntry(ids: map<Entry, string>, e: Entry): (r: string)
    ensures |r| == 1 && r[0] == ToLowerAscii(PublicIdForEntry(ids, e)[0])
  {
    [ToLowerAscii(PublicIdForEntry(ids, e)[0])]
  }

  /** `dirForEntry`. */
  function DirForEntry(root: string, ids: map<Entry, string>, e: Entry): (r: string)
    ensures StartsWith(r, root + "/entries/")
    ensures r == root + "/entries/" + ClusterForEntry(ids, e) + "/" + PublicIdForEntry(ids, e)
  {
    var head := root + "/entries/";
    ConcatParts(head, ClusterForEntry(ids, e));
    StartsWithExtend(head + ClusterForEntry(ids, e), head, "/");
    StartsWithExtend(head + ClusterForEntry(ids, e) + "/", head, PublicIdForEntry(ids, e));
    head + ClusterForEntry(ids, e) + "/" + PublicIdForEntry(ids, e)
  }

  /** `pathForEntry`. */
  function PathForEntry(root: string, ids: map<Entry, string>, e: Entry): (r: string)
    ensures StartsWith(r, root + "/entries/")
    ensures EndsWith(r, "/" + PublicIdForEntry(ids, e) + ".html")
    ensures r == DirForEntry(root, ids, e) + ("/" + PublicIdForEntry(ids, e) + ".html")
  {
    var p := PublicIdForEntry(ids, e);
    var dir := DirForEntry(root, ids, e);
    ConcatParts(dir, "/" + p + ".html");
    StartsWithExtend(dir, root + "/entries/", "/" + p + ".html");
    dir + ("/" + p + ".html")
  }

  /** The segments of an entry's page path read back: the entries directory,
      the one-character cluster, the public id as a directory, then the
      public id again as the `.html` page inside it. */
  lemma EntryPathSegments(root: string, ids: map<Entry, string>, e: Entry)
    ensures var r := PathForEntry(root, ids, e);
      var p := PublicIdForEntry(ids, e);
      var n := |root + "/entries/"|;
      && |r| == n + 2 + |p| + 1 + |p| + 5
      && r[..n] == root + "/entries/"
      && r[n] == ToLowerAscii(p[0]) && r[n + 1] == '/'
      && r[n + 2..n + 2 + |p|] == p
      && r[n + 2 + |p|..] == "/" + p + ".html"
  {
    var p := PublicIdForEntry(ids, e);
    var head := root + "/entries/";
    var n := |head|;
    var c := ClusterForEntry(ids, e);
    var r := PathForEntry(root, ids, e);
    assert r == head + c + "/" + p + ("/" + p + ".html");
    assert r[..n] == head;
    assert r[n] == c[0];
    assert r[n + 2..n + 2 + |p|] == p;
    assert r[n + 2 + |p|..] == "/" + p + ".html";
  }

  /** The page of an entry determines its public id: the id is read back
      from the path by length alone. */
  lemma PathForEntryDeterminesId(root: string, ids: map<Entry, string>, e1: Entry, e2: Entry)
    requires PathForEntry(root, ids, e1) == PathForEntry(root, ids, e2)
    ensures PublicIdForEntry(ids, e1) == PublicIdForEntry(ids, e2)
  {
    var p1 := PublicIdForEntry(ids, e1);
    var p2 := PublicIdForEntry(ids, e2);
    var r := PathForEntry(root, ids, e1);
    // |r| == |root| + 9 + 1 + 1 + |p| + 1 + |p| + 5
    assert |r| == |root| + 2 * |p1| + 17;
    assert |r| == |root| + 2 * |p2| + 17;
    assert |p1| == |p2|;
    var suffix1 := "/" + p1 + ".html";
    var suffix2 := "/" + p2 + ".html";
    assert r[|r| - |suffix1|..] == suffix1;
    assert r[|r| - |suffix2|..] == suffix2;
    assert p1 == suffix1[1..|suffix1| - 5] == suffix2[1..|suffix2| - 5] == p2;
  }

  /** Entries with different ids are written to different pages. */
  lemma EntryPagesDistinct(root: string, entries: seq<Entry>, variant: string, e1: Entry, e2: Entry)
    requires e1.entryId != e2.entryId
    ensures var ids := ComputeEntryPublicIds(entries, variant);
      PathForEntry(root, ids, e1) != PathForEntry(root, ids, e2)
  {
    var ids := ComputeEntryPublicIds(entries, variant);
    PublicIdsDistinct(entries, variant, e1, e2);
    if PathForEntry(root, ids, e1) == PathForEntry(root, ids, e2) {
      PathForEntryDeterminesId(root, ids, e1, e2);
    }
  }

  /** The characters `/[^a-zA-Z0-9-']/` leaves alone. */
  predicate IsCategoryChar(c: char) {
    IsAsciiAlnum(c) || c == '-' || c == '\''
  }

  /** `pathForCategory`. */
  function PathForCategory(category: string): (r: string)
    ensures StartsWith(r, "categories/") && EndsWith(r, ".html")
    ensures |r| == |category| + 16
    ensures forall i :: 0 <= i < |category| ==>
      r[11 + i] == if IsCategoryChar(category[i]) then category[i] else '_'
  {
    var r := "categories/" + ReplaceOutside(category, IsCategoryChar) + ".html";
    assert r[..11] == "categories/";
    assert r[|r| - 5..] == ".html";
    r
  }

  /** Two categories whose names differ only outside `[a-zA-Z0-9-']` share a
      page; names made only of kept characters get pages of their own. */
  lemma CategoryPathsDistinct(c1: string, c2: string)
    requires forall i :: 0 <= i < |c1| ==> IsCategoryChar(c1[i])
    requires forall i :: 0 <= i < |c2| ==> IsCategoryChar(c2[i])
    requires c1 != c2
    ensures PathForCategory(c1) != PathForCategory(c2)
  {
    if PathForCategory(c1) == PathForCategory(c2) {
      assert false;
    }
  }

  /** `dirForBookPage`: the page number padded with zeros to four characters. */
  function DirForBookPage(root: string, book: string, pageNum: int): (r: string)
    ensures StartsWith(r, root + "/books/" + book + "/page-")
    ensures var digits := r[|root + "/books/" + book + "/page-"|..];
      && |digits| == (if |IntToString(pageNum)| >= 4 then |IntToString(pageNum)| else 4)
      && EndsWith(digits, IntToString(pageNum))
      && forall i :: 0 <= i < |digits| - |IntToString(pageNum)| ==> digits[i] == '0'
  {
    var prefix := root + "/books/" + book + "/page-";
    var r := prefix + PadStart(IntToString(pageNum), 4, '0');
    assert r[..|prefix|] == prefix;
    assert r[|prefix|..] == PadStart(IntToString(pageNum), 4, '0');
    r
  }

  /** For page numbers 0..9999 the padded number reads back as the page. */
  lemma BookPageNumberReadsBack(root: string, book: string, pageNum: nat)
    requires pageNum < 10000
    ensures var prefix := root + "/books/" + book + "/page-";
      var digits := DirForBookPage(root, book, pageNum)[|prefix|..];
      |digits| == 4 && AllDigits(digits) && ParseDigits(digits) == pageNum
  {
    var prefix := root + "/books/" + book + "/page-";
    var padded := PadStart(IntToString(pageNum), 4, '0');
    assert DirForBookPage(root, book, pageNum) == prefix + padded;
    assert (prefix + padded)[|prefix|..] == padded;
    NumDigitsBound(pageNum, 4);
    PadStartValue(pageNum, 4);
  }

  /** `pathForBookPage`. */
  function PathForBookPage(root: string, book: string, pageNum: int): (r: string)
    ensures StartsWith(r, DirForBookPage(root, book, pageNum))
    ensures EndsWith(r, "/index.html")
    ensures |r| == |DirForBookPage(root, book, pageNum)| + |"/index.html"|
  {
    var d := DirForBookPage(root, book, pageNum);
    var r := d + "/index.html";
    assert r[..|d|] == d;
    assert r[|r| - 11..] == "/index.html";
    r
  }
}
