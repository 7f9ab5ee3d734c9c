/** scripts/update_from_scholar.py: each Google Scholar record turned into
    a publication entry, and the entries ordered by year, newest first, for
    the data file. */
module Scholar {
  import opened Wrappers
  import opened Text

  // ---------------------------------------------------------------------
  // Records and entries
  // ---------------------------------------------------------------------

  /** A filled Scholar publication: its bibliography fields and its URL. */
  datatype ScholarPub = ScholarPub(bib: map<string, string>, pubUrl: Option<string>)

  /** The `year` value of an entry: an integer when the record's year is
      all digits, the text itself otherwise. */
  datatype YearValue = IntYear(n: nat) | TextYear(s: string)

  /** One entry of the data file. */
  datatype Entry = Entry(title: string, authors: string, year: YearValue, journal: string, link: Option<string>)

  /** `bib.get(key)`. */
  function Lookup(bib: map<string, string>, key: string): Option<string>
  {
    if key in bib then Some(bib[key]) else None
  }

  /** `bib.get(key, default)`. */
  function GetOr(bib: map<string, string>, key: string, default: string): string
  {
    if key in bib then bib[key] else default
  }

  /** Python truthiness of an optional string: present and non-empty. */
  predicate Truthy(v: Option<string>)
  {
    v.Some? && v.value != []
  }

  /** The venue: the first of journal, conference and publisher that is
      present and non-empty, else "Preprint". It is never empty. */
  function Venue(bib: map<string, string>): (v: string)
    ensures v != []
    ensures Truthy(Lookup(bib, "journal")) ==> v == bib["journal"]
    ensures !Truthy(Lookup(bib, "journal")) && Truthy(Lookup(bib, "conference")) ==> v == bib["conference"]
    ensures !Truthy(Lookup(bib, "journal")) && !Truthy(Lookup(bib, "conference")) && Truthy(Lookup(bib, "publisher"))
      ==> v == bib["publisher"]
    ensures !Truthy(Lookup(bib, "journal")) && !Truthy(Lookup(bib, "conference")) && !Truthy(Lookup(bib, "publisher"))
      ==> v == "Preprint"
  {
    if Truthy(Lookup(bib, "journal")) then bib["journal"]
    else if Truthy(Lookup(bib, "conference")) then bib["conference"]
    else if Truthy(Lookup(bib, "publisher")) then bib["publisher"]
    else "Preprint"
  }

  /** `journal_full`: the venue, then ", volume" and, only after a volume,
      "(number)", then ", pages" whenever there are pages. */
  function JournalFull(venue: string, volume: Option<string>, number: Option<string>, pages: Option<string>): (full: string)
    ensures |venue| <= |full| && full[..|venue|] == venue
    ensures var tail := if Truthy(pages) then ", " + pages.value else "";
      && (Truthy(volume) && Truthy(number) ==> full[|venue|..] == ", " + volume.value + "(" + number.value + ")" + tail)
      && (Truthy(volume) && !Truthy(number) ==> full[|venue|..] == ", " + volume.value + tail)
      && (!Truthy(volume) ==> full[|venue|..] == tail)
  {
    var withVolume :=
      if Truthy(volume) then
        venue + ", " + volume.value + (if Truthy(number) then "(" + number.value + ")" else "")
      else venue;
    if Truthy(pages) then withVolume + ", " + pages.value else withVolume
  }

  /** Without a volume the number is ignored. */
  lemma NumberNeedsVolume(venue: string, volume: Option<string>, n1: Option<string>, n2: Option<string>, pages: Option<string>)
    requires !Truthy(volume)
    ensures JournalFull(venue, volume, n1, pages) == JournalFull(venue, volume, n2, pages)
  {
  }

  /** Pages are appended whether or not there is a volume. */
  lemma PagesAlwaysAppended(venue: string, volume: Option<string>, number: Option<string>, pages: string)
    requires pages != []
    ensures JournalFull(venue, volume, number, Some(pages)) == JournalFull(venue, volume, number, None) + ", " + pages
  {
  }

  /** `int(year) if str(year).isdigit() else year`. */
  function YearOf(raw: string): (y: YearValue)
    ensures y.IntYear? <==> raw != [] && AllDigits(raw)
    ensures y.TextYear? ==> y.s == raw
  {
    if raw != [] && AllDigits(raw) then IntYear(DigitsValue(raw)) else TextYear(raw)
  }

  /** `str(year)`: the text an entry's year is compared by. */
  function YearKey(y: YearValue): string
  {
    match y
    case IntYear(n) => NatToString(n)
    case TextYear(s) => s
  }

  /** The year text survives the conversion to an integer and back exactly
      when it is not a digit string with a superfluous leading zero; an
      integer year reads back as its own value. */
  lemma YearRoundTrip(raw: string)
    ensures YearKey(YearOf(raw)) == raw <==> !(raw != [] && AllDigits(raw) && raw[0] == '0' && |raw| > 1)
    ensures YearOf(raw).IntYear? ==> DigitsValue(YearKey(YearOf(raw))) == YearOf(raw).n
  {
    if raw != [] && AllDigits(raw) {
      ValueOfNatToString(DigitsValue(raw));
      if raw[0] != '0' || |raw| == 1 {
        NatToStringOfValue(raw);
      }
    }
  }

  const FullName := "Yalin Yang"
  const ShortName := "Y Yang"

  /** The author list with the owner's names in bold: every "Yalin Yang",
      then every "Y Yang". */
  function Bold(authors: string): string
  {
    ReplaceAll(ReplaceAll(authors, FullName, "**" + FullName + "**"), ShortName, "**" + ShortName + "**")
  }

  /** An author list without either name is left as it is. */
  lemma BoldAbsent(authors: string)
    requires !Contains(authors, FullName) && !Contains(authors, ShortName)
    ensures Bold(authors) == authors
  {
    ReplaceAbsent(authors, FullName, "**" + FullName + "**");
    ReplaceAbsent(authors, ShortName, "**" + ShortName + "**");
  }

  /** The owner's names themselves come out in bold. */
  lemma BoldNames()
    ensures Bold(FullName) == "**" + FullName + "**"
    ensures Bold(ShortName) == "**" + ShortName + "**"
  {
    var full := "**" + FullName + "**";
    assert FullName[..|FullName|] == FullName && FullName[|FullName|..] == [];
    assert ReplaceAll(FullName, FullName, full) == full;
    forall i | 0 <= i <= |full| - |ShortName|
      ensures !OccursAt(full, ShortName, i)
    {
      assert full[i..i + |ShortName|][1] == full[i + 1];
      assert full[i..i + |ShortName|][0] == full[i];
    }
    ReplaceAbsent(full, ShortName, "**" + ShortName + "**");
    var short := "**" + ShortName + "**";
    assert ReplaceAll(ShortName, FullName, full) == ShortName;
    assert ShortName[..|ShortName|] == ShortName && ShortName[|ShortName|..] == [];
    assert ReplaceAll(ShortName, ShortName, short) == short;
  }

  /** Bolding works piece by piece around any character that is in
      neither name, such as the comma between two authors. */
  lemma BoldAround(a: string, c: char, b: string)
    requires c !in FullName && c !in ShortName
    ensures Bold(a + [c] + b) == Bold(a) + [c] + Bold(b)
  {
    var full := "**" + FullName + "**";
    ReplaceAround(a, c, b, FullName, full);
    ReplaceAround(ReplaceAll(a, FullName, full), c, ReplaceAll(b, FullName, full), ShortName, "**" + ShortName + "**");
  }

  /** The entry for one record: title 'Untitled' and year 'Unknown' when
      absent, authors 'Unknown' when absent and bolded, the full venue
      line, and the record's URL. */
  function EntryOf(pub: ScholarPub): (e: Entry)
    ensures e.title == GetOr(pub.bib, "title", "Untitled")
    ensures e.authors == Bold(GetOr(pub.bib, "author", "Unknown"))
    ensures e.year == YearOf(GetOr(pub.bib, "pub_year", "Unknown"))
    ensures |Venue(pub.bib)| <= |e.journal| && e.journal[..|Venue(pub.bib)|] == Venue(pub.bib)
    ensures e.journal == JournalFull(Venue(pub.bib), Lookup(pub.bib, "volume"), Lookup(pub.bib, "number"),
                                     Lookup(pub.bib, "pages"))
    ensures e.link == pub.pubUrl
  {
    var bib := pub.bib;
    Entry(GetOr(bib, "title", "Untitled"),
          Bold(GetOr(bib, "author", "Unknown")),
          YearOf(GetOr(bib, "pub_year", "Unknown")),
          JournalFull(Venue(bib), Lookup(bib, "volume"), Lookup(bib, "number"), Lookup(bib, "pages")),
          pub.pubUrl)
  }

  /** An absent year reads "Unknown", which stays text. */
  lemma UnknownYearIsText(pub: ScholarPub)
    requires "pub_year" !in pub.bib
    ensures EntryOf(pub).year == TextYear("Unknown")
  {
    assert !IsDigit('U');
  }

  /** The loop of fetch_publications: one entry per record, in order. */
  method FetchPublications(pubs: seq<ScholarPub>) returns (entries: seq<Entry>)
    ensures |entries| == |pubs|
    ensures forall k | 0 <= k < |pubs| :: entries[k] == EntryOf(pubs[k])
  {
    entries := AppendEach(pubs, EntryOf);
  }

  // ---------------------------------------------------------------------
  // The order of the data file
  // ---------------------------------------------------------------------

  /** The sort key: the year as text. */
  function SortKey(e: Entry): string
  {
    YearKey(e.year)
  }

  /** Non-increasing by key. */
  predicate SortedDesc<T>(s: seq<T>, key: T -> string)
  {
    forall i, j | 0 <= i < j < |s| :: !Less(key(s[i]), key(s[j]))
  }

  /** `x` placed before the first element whose key is smaller than its
      own, so that it follows every element with an equal key. */
  function InsertDesc<T(==)>(s: seq<T>, x: T, key: T -> string): (r: seq<T>)
    ensures |r| == |s| + 1
  {
    if s == [] then [x]
    else if Less(key(s[0]), key(x)) then [x] + s
    else [s[0]] + InsertDesc(s[1..], x, key)
  }

  /** Insertion adds `x` and nothing else. */
  lemma {:induction false} InsertPermutation<T>(s: seq<T>, x: T, key: T -> string)
    ensures multiset(InsertDesc(s, x, key)) == multiset(s) + multiset{x}
  {
    if s != [] {
      assert s == [s[0]] + s[1..];
      if !Less(key(s[0]), key(x)) {
        InsertPermutation(s[1..], x, key);
      }
    }
  }

  /** The order a stable sort with `reverse=True` produces: non-increasing
      by key, built by inserting the elements one after another. */
  function SortDesc<T(==)>(xs: seq<T>, key: T -> string): (r: seq<T>)
    ensures |r| == |xs|
  {
    if xs == [] then [] else InsertDesc(SortDesc(xs[..|xs| - 1], key), xs[|xs| - 1], key)
  }

  /** The order of the data file. */
  function SortByYear(entries: seq<Entry>): seq<Entry>
  {
    SortDesc(entries, SortKey)
  }

  /** "Not smaller than" is transitive. */
  lemma NotLessTransitive(a: string, b: string, c: string)
    requires !Less(a, b) && !Less(b, c)
    ensures !Less(a, c)
  {
    if Less(a, c) {
      LessTotal(b, c);
      if Less(c, b) {
        LessTransitive(a, c, b);
      }
    }
  }

  /** Insertion keeps a sorted sequence sorted. */
  lemma {:induction false} InsertSorted<T>(s: seq<T>, x: T, key: T -> string)
    requires SortedDesc(s, key)
    ensures SortedDesc(InsertDesc(s, x, key), key)
  {
    var r := InsertDesc(s, x, key);
    if s == [] {
    } else if Less(key(s[0]), key(x)) {
      forall j | 0 < j < |r|
        ensures !Less(key(x), key(r[j]))
      {
        if Less(key(x), key(r[j])) {
          LessTransitive(key(s[0]), key(x), key(r[j]));
          if j == 1 {
            LessIrreflexive(key(s[0]));
          }
        }
      }
    } else {
      InsertSorted(s[1..], x, key);
      InsertPermutation(s[1..], x, key);
      forall j | 0 < j < |r|
        ensures !Less(key(s[0]), key(r[j]))
      {
        assert r[j] in multiset(InsertDesc(s[1..], x, key));
        if r[j] != x {
          assert r[j] in multiset(s[1..]);
          var m :| 0 <= m < |s[1..]| && s[1..][m] == r[j];
          assert s[m + 1] == r[j];
        }
      }
    }
  }

  /** The sorted order is non-increasing by key. */
  lemma {:induction false} SortSorted<T>(xs: seq<T>, key: T -> string)
    ensures SortedDesc(SortDesc(xs, key), key)
  {
    if xs != [] {
      SortSorted(xs[..|xs| - 1], key);
      InsertSorted(SortDesc(xs[..|xs| - 1], key), xs[|xs| - 1], key);
    }
  }

  /** The sorted order holds the same elements, each as often. */
  lemma {:induction false} SortPermutation<T>(xs: seq<T>, key: T -> string)
    ensures multiset(SortDesc(xs, key)) == multiset(xs)
  {
    if xs != [] {
      SortPermutation(xs[..|xs| - 1], key);
      InsertPermutation(SortDesc(xs[..|xs| - 1], key), xs[|xs| - 1], key);
      assert xs == xs[..|xs| - 1] + [xs[|xs| - 1]];
    }
  }

  /** The elements whose key is `k`, in order. */
  function WithKey<T>(s: seq<T>, key: T -> string, k: string): seq<T>
  {
    if s == [] then [] else (if key(s[0]) == k then [s[0]] else []) + WithKey(s[1..], key, k)
  }

  lemma {:induction false} WithKeyAppend<T>(a: seq<T>, b: seq<T>, key: T -> string, k: string)
    ensures WithKey(a + b, key, k) == WithKey(a, key, k) + WithKey(b, key, k)
  {
    if a == [] {
      assert a + b == b;
    } else {
      var c := a + b;
      assert c[1..] == a[1..] + b;
      WithKeyAppend(a[1..], b, key, k);
      var h := if key(a[0]) == k then [a[0]] else [];
      assert c[0] == a[0];
      assert WithKey(c, key, k) == h + WithKey(c[1..], key, k);
      assert WithKey(a, key, k) == h + WithKey(a[1..], key, k);
      AppendAssoc(h, WithKey(a[1..], key, k), WithKey(b, key, k));
    }
  }

  /** A sorted sequence whose first key is smaller than `k` holds no
      element with key `k`. */
  lemma {:induction false} NoneWithKey<T>(s: seq<T>, key: T -> string, k: string)
    requires SortedDesc(s, key) && s != [] && Less(key(s[0]), k)
    ensures WithKey(s, key, k) == []
  {
    LessIrreflexive(k);
    if |s| > 1 {
      if !Less(key(s[1]), k) {
        NotLessTransitive(key(s[0]), key(s[1]), k);
      }
      NoneWithKey(s[1..], key, k);
    }
  }

  /** Insertion puts `x` after every element with an equal key. */
  lemma {:induction false} InsertWithKey<T>(s: seq<T>, x: T, key: T -> string, k: string)
    requires SortedDesc(s, key)
    ensures WithKey(InsertDesc(s, x, key), key, k) == WithKey(s, key, k) + WithKey([x], key, k)
  {
    if s == [] {
    } else if Less(key(s[0]), key(x)) {
      if key(x) == k {
        NoneWithKey(s, key, k);
      }
      WithKeyAppend([x], s, key, k);
    } else {
      InsertWithKey(s[1..], x, key, k);
      WithKeyAppend([s[0]], InsertDesc(s[1..], x, key), key, k);
    }
  }

  /** Stability: the elements that share a key keep their original order. */
  lemma {:induction false} SortStable<T>(xs: seq<T>, key: T -> string, k: string)
    ensures WithKey(SortDesc(xs, key), key, k) == WithKey(xs, key, k)
  {
    if xs != [] {
      var front := xs[..|xs| - 1];
      var x := xs[|xs| - 1];
      SortStable(front, key, k);
      SortSorted(front, key);
      InsertWithKey(SortDesc(front, key), x, key, k);
      WithKeyAppend(front, [x], key, k);
      assert xs == front + [x];
    }
  }

  /** An entry whose year stayed "Unknown" sorts ahead of every entry with
      an integer year. */
  lemma UnknownFirst(s: seq<Entry>, i: nat, j: nat)
    requires SortedDesc(s, SortKey) && i < |s| && j < |s|
    requires s[i].year == TextYear("Unknown") && s[j].year.IntYear?
    ensures i < j
  {
    var digits := SortKey(s[j]);
    assert digits[0] < 'U';
  }

  // ---------------------------------------------------------------------
  // save_yaml's in-place sort
  // ---------------------------------------------------------------------

  /** Where the scan from the right stops is where `InsertDesc` puts `x`. */
  lemma {:induction false} InsertAt<T>(s: seq<T>, x: T, key: T -> string, j: nat)
    requires j <= |s|
    requires forall m | 0 <= m < j :: !Less(key(s[m]), key(x))
    requires j == |s| || Less(key(s[j]), key(x))
    ensures InsertDesc(s, x, key) == s[..j] + [x] + s[j..]
  {
    if j > 0 {
      var t := s[1..];
      assert !Less(key(s[0]), key(x));
      InsertAt(t, x, key, j - 1);
      assert s[..j] == [s[0]] + t[..j - 1];
    }
  }

  /** In a sorted sequence, the elements before the stopping point of the
      scan from the right are all not smaller than `x`. */
  lemma ScanStop<T>(s: seq<T>, x: T, key: T -> string, j: nat)
    requires SortedDesc(s, key) && j <= |s|
    requires j == 0 || !Less(key(s[j - 1]), key(x))
    ensures forall m | 0 <= m < j :: !Less(key(s[m]), key(x))
  {
    forall m | 0 <= m < j
      ensures !Less(key(s[m]), key(x))
    {
      if m < j - 1 {
        NotLessTransitive(key(s[m]), key(s[j - 1]), key(x));
      }
    }
  }

  /** The inner loop of one insertion pass: the entries of the sorted
      prefix `a[..i]` whose key is smaller than `key(x)` are moved one
      place right, and the gap they leave is returned. */
  method ShiftSmaller<T>(a: array<T>, i: nat, x: T, key: T -> string) returns (j: nat)
    requires i < a.Length
    modifies a
    ensures j <= i
    ensures a[..j] == old(a[..j])
    ensures a[j + 1..i + 1] == old(a[j..i])
    ensures a[i + 1..] == old(a[i + 1..])
    ensures forall m | j <= m < i :: Less(key(old(a[m])), key(x))
    ensures j == 0 || !Less(key(a[j - 1]), key(x))
  {
    ghost var prefix := a[..i];
    j := i;
    while j > 0 && Less(key(a[j - 1]), key(x))
      invariant 0 <= j <= i
      invariant a[..j] == prefix[..j]
      invariant a[j + 1..i + 1] == prefix[j..]
      invariant a[i + 1..] == old(a[i + 1..])
      invariant forall m | j <= m < i :: Less(key(prefix[m]), key(x))
    {
      a[j] := a[j - 1];
      j := j - 1;
    }
  }

  /** Writing `x` into the gap left by the shift puts it between the two
      parts of the prefix, and leaves the rest of the array alone. */
  lemma Placed<T>(shifted: seq<T>, sorted: seq<T>, x: T, j: nat)
    requires j <= |sorted| < |shifted|
    requires shifted[..j] == sorted[..j] && shifted[j + 1..|sorted| + 1] == sorted[j..]
    ensures shifted[j := x][..|sorted| + 1] == sorted[..j] + [x] + sorted[j..]
    ensures shifted[j := x][|sorted| + 1..] == shifted[|sorted| + 1..]
  {
    var n := |sorted|;
    var r := shifted[j := x];
    assert r[..j] == shifted[..j];
    assert r[j + 1..n + 1] == shifted[j + 1..n + 1];
    assert r[..n + 1] == r[..j] + [x] + r[j + 1..n + 1];
  }

  /** One pass of insertion sort: `a[i]` moved left past the entries of
      the sorted prefix whose key is smaller than its own. */
  method InsertInPlace<T(==)>(a: array<T>, i: nat, key: T -> string)
    requires i < a.Length && SortedDesc(a[..i], key)
    modifies a
    ensures a[..i + 1] == InsertDesc(old(a[..i]), old(a[i]), key)
    ensures a[i + 1..] == old(a[i + 1..])
  {
    ghost var sorted := a[..i];
    var x := a[i];
    var j := ShiftSmaller(a, i, x, key);
    ghost var shifted := a[..];
    a[j] := x;
    Placed(shifted, sorted, x, j);
    assert a[..] == shifted[j := x];
    ScanStop(sorted, x, key, j);
    InsertAt(sorted, x, key, j);
  }

  /** `publications.sort(key=lambda x: str(x['year']), reverse=True)`, as
      an insertion sort in place. */
  method SortPublications(a: array<Entry>)
    modifies a
    ensures a[..] == SortByYear(old(a[..]))
  {
    ghost var input := a[..];
    for i := 0 to a.Length
      invariant a[..i] == SortByYear(input[..i])
      invariant a[i..] == input[i..]
    {
      SortSorted(input[..i], SortKey);
      InsertInPlace(a, i, SortKey);
      assert input[..i + 1] == input[..i] + [input[i]];
    }
    assert input[..a.Length] == input;
  }
}
