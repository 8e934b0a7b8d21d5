/**
  The catalog grouping of `tle_fetcher.py`: the lines of a CelesTrak-style
  catalog come in groups of three (a name line and the two element lines),
  and each group becomes one `SatelliteTLE` record in a dictionary keyed by
  the stripped name line. A later group with the same name replaces an
  earlier one.
 */
module TleFetcher {
  import opened PyStr

  /** One catalog entry: the stripped name and the two element lines, kept as they were read. */
  datatype SatelliteTLE = SatelliteTLE(name: string, line1: string, line2: string)

  /** The `ValueError` raised when the line count is not a multiple of three. */
  datatype FetchError = NotEnoughLines(lineCount: nat)

  datatype Result<T> = Ok(value: T) | Err(error: FetchError)

  type Catalog = map<string, SatelliteTLE>

  /** The key of group `j`: its name line (line `3 * j`) with surrounding whitespace removed. */
  function NameAt(lines: seq<string>, j: nat): string
    requires 3 * j + 2 < |lines|
  {
    Strip(lines[3 * j])
  }

  /** The record built from group `j`, lines `3 * j` to `3 * j + 2`. */
  function EntryAt(lines: seq<string>, j: nat): SatelliteTLE
    requires 3 * j + 2 < |lines|
  {
    SatelliteTLE(NameAt(lines, j), lines[3 * j + 1], lines[3 * j + 2])
  }

  /** The dictionary after the first `k` groups have been stored, in order. */
  function Grouped(lines: seq<string>, k: nat): Catalog
    requires 3 * k <= |lines|
  {
    if k == 0 then map[] else Grouped(lines, k - 1)[NameAt(lines, k - 1) := EntryAt(lines, k - 1)]
  }

  /** What `fetch_tle` returns, or the error it raises, for a given list of lines. */
  function FetchResult(lines: seq<string>): Result<Catalog> {
    if |lines| % 3 != 0 then Err(NotEnoughLines(|lines|)) else Ok(Grouped(lines, |lines| / 3))
  }

  /** No two of the first `k` groups have the same stripped name. */
  predicate DistinctNames(lines: seq<string>, k: nat)
    requires 3 * k <= |lines|
  {
    forall j1, j2 :: 0 <= j1 < j2 < k ==> NameAt(lines, j1) != NameAt(lines, j2)
  }

  /** The loop of `fetch_tle`: every third index starting at 0, with room for the two element lines after it. */
  lemma GroupInBounds(n: nat, i: nat)
    requires n % 3 == 0 && i % 3 == 0 && i < n
    ensures i + 2 < n
  {
  }

  /**
    `fetch_tle` on the already-split lines: rejects a line count that is not a
    multiple of three, otherwise walks the groups in order and stores each
    record under its stripped name.
   */
  method FetchTle(lines: seq<string>) returns (r: Result<Catalog>)
    ensures r == FetchResult(lines)
    ensures r.Err? <==> |lines| % 3 != 0
    ensures r.Ok? ==> forall key :: key in r.value <==> exists j :: 0 <= j < |lines| / 3 && NameAt(lines, j) == key
    ensures r.Ok? ==> forall key :: key in r.value ==> r.value[key].name == key
    ensures r.Ok? ==> |r.value| <= |lines| / 3
  {
    if |lines| % 3 != 0 {
      return Err(NotEnoughLines(|lines|));
    }
    var tle: Catalog := map[];
    var i := 0;
    while i < |lines|
      invariant 0 <= i <= |lines| && i % 3 == 0
      invariant tle == Grouped(lines, i / 3)
    {
      var name := Strip(lines[i]);
      var line1 := lines[i + 1];
      var line2 := lines[i + 2];
      var s := SatelliteTLE(name, line1, line2);
      tle := tle[name := s];
      i := i + 3;
    }
    GroupedKeys(lines, |lines| / 3);
    GroupedNameIsKey(lines, |lines| / 3);
    GroupedSizeBound(lines, |lines| / 3);
    return Ok(tle);
  }

  /** The keys after `k` groups are exactly the stripped names of those groups, whatever their element lines hold. */
  lemma {:induction false} GroupedKeys(lines: seq<string>, k: nat)
    requires 3 * k <= |lines|
    ensures forall key :: key in Grouped(lines, k) <==> exists j :: 0 <= j < k && NameAt(lines, j) == key
  {
    if k > 0 {
      GroupedKeys(lines, k - 1);
    }
  }

  /** The name of each of the first `k` groups is a key after them. */
  lemma {:induction false} GroupedHasName(lines: seq<string>, k: nat, j: nat)
    requires 3 * k <= |lines| && j < k
    ensures NameAt(lines, j) in Grouped(lines, k)
  {
    if j < k - 1 {
      GroupedHasName(lines, k - 1, j);
    }
  }

  /**
    The record stored under a key comes from the LAST of the first `k` groups
    with that name, and holds that name and that group's two element lines.
   */
  lemma {:induction false} GroupedStoredIsLast(lines: seq<string>, k: nat, key: string)
    requires 3 * k <= |lines|
    requires key in Grouped(lines, k)
    ensures exists j :: && 0 <= j < k && NameAt(lines, j) == key
                        && Grouped(lines, k)[key] == EntryAt(lines, j)
                        && forall j' :: j < j' < k ==> NameAt(lines, j') != key
  {
    if NameAt(lines, k - 1) != key {
      GroupedStoredIsLast(lines, k - 1, key);
    } else {
      assert Grouped(lines, k)[key] == EntryAt(lines, k - 1);
    }
  }

  /** Every stored record's `name` is its key. */
  lemma {:induction false} GroupedNameIsKey(lines: seq<string>, k: nat)
    requires 3 * k <= |lines|
    ensures forall key :: key in Grouped(lines, k) ==> Grouped(lines, k)[key].name == key
  {
    forall key | key in Grouped(lines, k)
      ensures Grouped(lines, k)[key].name == key
    {
      GroupedStoredIsLast(lines, k, key);
    }
  }

  /** A group that no later group renames to the same key is the one stored under its name, element lines unmodified. */
  lemma {:induction false} GroupedLaterWins(lines: seq<string>, k: nat, j: nat)
    requires 3 * k <= |lines| && j < k
    requires forall j' :: j < j' < k ==> NameAt(lines, j') != NameAt(lines, j)
    ensures NameAt(lines, j) in Grouped(lines, k)
    ensures Grouped(lines, k)[NameAt(lines, j)] == EntryAt(lines, j)
  {
    if j < k - 1 {
      GroupedLaterWins(lines, k - 1, j);
    }
  }

  /** When groups `j1 < j2` share a name, the stored record comes from `j2` or a group after it, never from `j1`. */
  lemma {:induction false} GroupedDuplicateOverwritten(lines: seq<string>, k: nat, j1: nat, j2: nat)
    requires 3 * k <= |lines| && j1 < j2 < k
    requires NameAt(lines, j1) == NameAt(lines, j2)
    ensures NameAt(lines, j2) in Grouped(lines, k)
    ensures exists j :: j2 <= j < k && Grouped(lines, k)[NameAt(lines, j2)] == EntryAt(lines, j)
  {
    GroupedKeys(lines, k);
    GroupedStoredIsLast(lines, k, NameAt(lines, j2));
  }

  /** Storing group `k - 1` adds a key exactly when no earlier group had its name. */
  lemma GroupedStep(lines: seq<string>, k: nat)
    requires 0 < k && 3 * k <= |lines|
    ensures NameAt(lines, k - 1) in Grouped(lines, k - 1) ==> |Grouped(lines, k)| == |Grouped(lines, k - 1)|
    ensures NameAt(lines, k - 1) !in Grouped(lines, k - 1) ==> |Grouped(lines, k)| == |Grouped(lines, k - 1)| + 1
  {
    var name := NameAt(lines, k - 1);
    if name in Grouped(lines, k - 1) {
      assert Grouped(lines, k).Keys == Grouped(lines, k - 1).Keys;
    } else {
      assert Grouped(lines, k).Keys == Grouped(lines, k - 1).Keys + {name};
    }
  }

  /** At most one entry per group. */
  lemma {:induction false} GroupedSizeBound(lines: seq<string>, k: nat)
    requires 3 * k <= |lines|
    ensures |Grouped(lines, k)| <= k
  {
    if k > 0 {
      GroupedSizeBound(lines, k - 1);
      GroupedStep(lines, k);
    }
  }

  /** Distinct names give one entry per group. */
  lemma {:induction false} DistinctNamesFillCatalog(lines: seq<string>, k: nat)
    requires 3 * k <= |lines| && DistinctNames(lines, k)
    ensures |Grouped(lines, k)| == k
  {
    if k > 0 {
      assert DistinctNames(lines, k - 1);
      DistinctNamesFillCatalog(lines, k - 1);
      GroupedStep(lines, k);
      GroupedKeys(lines, k - 1);
      assert NameAt(lines, k - 1) !in Grouped(lines, k - 1);
    }
  }

  /** One entry per group means no two groups share a name. */
  lemma {:induction false} FullCatalogHasDistinctNames(lines: seq<string>, k: nat)
    requires 3 * k <= |lines| && |Grouped(lines, k)| == k
    ensures DistinctNames(lines, k)
  {
    if k > 0 {
      GroupedStep(lines, k);
      GroupedSizeBound(lines, k - 1);
      FullCatalogHasDistinctNames(lines, k - 1);
      forall j1, j2 | 0 <= j1 < j2 < k
        ensures NameAt(lines, j1) != NameAt(lines, j2)
      {
        if j2 == k - 1 {
          GroupedHasName(lines, k - 1, j1);
        }
      }
    }
  }

  /** Exactly one entry per group if and only if the groups' stripped names are distinct. */
  lemma GroupedSizeExact(lines: seq<string>, k: nat)
    requires 3 * k <= |lines|
    ensures |Grouped(lines, k)| == k <==> DistinctNames(lines, k)
  {
    if DistinctNames(lines, k) {
      DistinctNamesFillCatalog(lines, k);
    }
    if |Grouped(lines, k)| == k {
      FullCatalogHasDistinctNames(lines, k);
    }
  }

  /** An empty catalog succeeds with an empty dictionary. */
  lemma EmptyLines()
    ensures FetchResult([]) == Ok(map[])
  {
  }

  /** Two groups whose name lines strip to the same key leave one entry, built from the second group. */
  lemma SameNameTwice(n1: string, a1: string, a2: string, n2: string, b1: string, b2: string)
    requires Strip(n1) == Strip(n2)
    ensures FetchResult([n1, a1, a2, n2, b1, b2])
            == Ok(map[Strip(n2) := SatelliteTLE(Strip(n2), b1, b2)])
  {
    var lines := [n1, a1, a2, n2, b1, b2];
    var name := Strip(n2);
    assert NameAt(lines, 0) == NameAt(lines, 1) == name;
    assert Grouped(lines, 1) == map[name := SatelliteTLE(name, a1, a2)];
    assert EntryAt(lines, 1) == SatelliteTLE(name, b1, b2);
    assert Grouped(lines, 2) == Grouped(lines, 1)[name := EntryAt(lines, 1)];
    assert Grouped(lines, 2) == map[name := SatelliteTLE(name, b1, b2)];
  }

  /**
    Name lines that differ only in surrounding whitespace collide: both groups
    are stored under the stripped name, and the later group's element lines win.
   */
  lemma PaddedDuplicate(name: string, l1: string, r1: string, a1: string, a2: string,
                        l2: string, r2: string, b1: string, b2: string)
    requires Trimmed(name, Whitespace)
    requires AllIn(l1, Whitespace) && AllIn(r1, Whitespace) && AllIn(l2, Whitespace) && AllIn(r2, Whitespace)
    ensures FetchResult([l1 + name + r1, a1, a2, l2 + name + r2, b1, b2])
            == Ok(map[name := SatelliteTLE(name, b1, b2)])
  {
    StripPadded(l1, name, r1, Whitespace);
    StripPadded(l2, name, r2, Whitespace);
    StripTrimmed(name, Whitespace);
    SameNameTwice(l1 + name + r1, a1, a2, l2 + name + r2, b1, b2);
  }
}
