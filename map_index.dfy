/**
  The map index of pyx12: an ordered catalog of records that tells which
  XML map file (and which short name) describes a document, given the
  Interchange Control Version Number (ISA12), the Version / Release /
  Industry Identifier Code (GS08), the Functional Identifier Code (GS01)
  and, for the 278 only, the Transaction Set Purpose Code (BHT02).

  Every value that comes out of the catalog document is an `Attr`: an XML
  attribute that may be missing, or an element text that may be empty, is
  `None`, exactly as the parser hands it to the index.
*/
module MapIndex {

  import opened Wrappers

  /** An attribute value or element text of the catalog document. */
  type Attr = Option<string>

  /** One catalog record, as `add_map` stores it. */
  datatype MapEntry = MapEntry(
    icvn: Attr,
    vriic: Attr,
    fic: Attr,
    tspc: Attr,
    mapFile: Attr,
    abbr: Attr)

  /** The arguments of a lookup; `tspc == None` means "any purpose code". */
  datatype Query = Query(icvn: Attr, vriic: Attr, fic: Attr, tspc: Attr)

  /** A `map` element of the catalog: its attributes and its text. */
  datatype MapElement = MapElement(vriic: Attr, fic: Attr, tspc: Attr, text: Attr, abbr: Attr)

  /** A `version` element: its `icvn` attribute and its `map` children, in document order. */
  datatype VersionElement = VersionElement(icvn: Attr, maps: seq<MapElement>)

  // ---------------------------------------------------------------------
  // Matching and the first-match search
  // ---------------------------------------------------------------------

  /** The selection test of both lookups. */
  predicate Matches(e: MapEntry, q: Query)
  {
    && e.icvn == q.icvn
    && e.vriic == q.vriic
    && e.fic == q.fic
    && (q.tspc.None? || e.tspc == q.tspc)
  }

  /** No record of `s` is selected by `q`. */
  ghost predicate NoMatch(s: seq<MapEntry>, q: Query)
  {
    forall j :: 0 <= j < |s| ==> !Matches(s[j], q)
  }

  /** Record `i` is selected by `q` and no earlier record is. */
  ghost predicate IsFirstMatch(s: seq<MapEntry>, q: Query, i: int)
  {
    && 0 <= i < |s|
    && Matches(s[i], q)
    && forall j :: 0 <= j < i ==> !Matches(s[j], q)
  }

  /** The position of the record a lookup returns from, scanning in insertion order. */
  function FirstMatch(s: seq<MapEntry>, q: Query): (r: Option<nat>)
    ensures r.Some? ==> IsFirstMatch(s, q, r.value)
    ensures r.None? <==> NoMatch(s, q)
  {
    if |s| == 0 then None
    else if Matches(s[0], q) then Some(0)
    else
      match FirstMatch(s[1..], q)
      case None => None
      case Some(i) => Some(i + 1)
  }

  /** What `get_filename` answers for the records `s`. */
  function Filename(s: seq<MapEntry>, q: Query): (r: Attr)
    ensures NoMatch(s, q) ==> r == None
    ensures forall i :: IsFirstMatch(s, q, i) ==> r == s[i].mapFile
  {
    match FirstMatch(s, q)
    case None => None
    case Some(i) => s[i].mapFile
  }

  /** What `get_abbr` answers for the records `s`. */
  function Abbr(s: seq<MapEntry>, q: Query): (r: Attr)
    ensures NoMatch(s, q) ==> r == None
    ensures forall i :: IsFirstMatch(s, q, i) ==> r == s[i].abbr
  {
    match FirstMatch(s, q)
    case None => None
    case Some(i) => s[i].abbr
  }

  // ---------------------------------------------------------------------
  // Building the catalog from the document
  // ---------------------------------------------------------------------

  /** The record `add_map` stores for a `map` element inside a `version` with `icvn`. */
  function EntryOf(icvn: Attr, m: MapElement): (e: MapEntry)
  {
    MapEntry(icvn, m.vriic, m.fic, m.tspc, m.text, m.abbr)
  }

  /** The records of the `map` elements `ms` of one `version`, in document order. */
  function Entries(icvn: Attr, ms: seq<MapElement>): (r: seq<MapEntry>)
    ensures |r| == |ms|
  {
    if ms == [] then []
    else Entries(icvn, ms[..|ms| - 1]) + [EntryOf(icvn, ms[|ms| - 1])]
  }

  /** The number of `map` elements in the `version` elements `vs`. */
  function CountMaps(vs: seq<VersionElement>): nat
  {
    if vs == [] then 0
    else CountMaps(vs[..|vs| - 1]) + |vs[|vs| - 1].maps|
  }

  /** The catalog the constructor builds: version by version, map by map. */
  function Flatten(vs: seq<VersionElement>): (r: seq<MapEntry>)
    ensures |r| == CountMaps(vs)
  {
    if vs == [] then []
    else Flatten(vs[..|vs| - 1]) + Entries(vs[|vs| - 1].icvn, vs[|vs| - 1].maps)
  }

  // ---------------------------------------------------------------------
  // The index object
  // ---------------------------------------------------------------------

  /** The interface to the catalog: the records in the order they were added. */
  class MapIndex {
    var maps: seq<MapEntry>

    /** Loads the catalog from its already parsed `version` elements. */
    constructor (versions: seq<VersionElement>)
      ensures maps == Flatten(versions)
    {
      maps := [];
      new;
      var i := 0;
      while i < |versions|
        invariant 0 <= i <= |versions|
        invariant maps == Flatten(versions[..i])
      {
        var v := versions[i];
        var j := 0;
        while j < |v.maps|
          invariant 0 <= j <= |v.maps|
          invariant maps == Flatten(versions[..i]) + Entries(v.icvn, v.maps[..j])
        {
          var m := v.maps[j];
          AddMap(v.icvn, m.vriic, m.fic, m.tspc, m.text, m.abbr);
          assert v.maps[..j + 1][..j] == v.maps[..j];
          j := j + 1;
        }
        assert v.maps[..j] == v.maps;
        assert versions[..i + 1][..i] == versions[..i];
        i := i + 1;
      }
      assert versions[..i] == versions;
    }

    /** Appends one record at the end of the catalog. */
    method AddMap(icvn: Attr, vriic: Attr, fic: Attr, tspc: Attr, mapFile: Attr, abbr: Attr)
      modifies this
      ensures maps == old(maps) + [MapEntry(icvn, vriic, fic, tspc, mapFile, abbr)]
    {
      maps := maps + [MapEntry(icvn, vriic, fic, tspc, mapFile, abbr)];
    }

    /** The map file of the first record selected by the query, or `None`. */
    method GetFilename(icvn: Attr, vriic: Attr, fic: Attr, tspc: Attr := None) returns (r: Attr)
      ensures r == Filename(maps, Query(icvn, vriic, fic, tspc))
    {
      var q := Query(icvn, vriic, fic, tspc);
      var i := 0;
      while i < |maps|
        invariant 0 <= i <= |maps|
        invariant forall j :: 0 <= j < i ==> !Matches(maps[j], q)
      {
        var a := maps[i];
        if Matches(a, q) {
          assert IsFirstMatch(maps, q, i);
          return a.mapFile;
        }
        i := i + 1;
      }
      return None;
    }

    /** The abbreviation of the first record selected by the query, or `None`. */
    method GetAbbr(icvn: Attr, vriic: Attr, fic: Attr, tspc: Attr := None) returns (r: Attr)
      ensures r == Abbr(maps, Query(icvn, vriic, fic, tspc))
    {
      var q := Query(icvn, vriic, fic, tspc);
      var i := 0;
      while i < |maps|
        invariant 0 <= i <= |maps|
        invariant forall j :: 0 <= j < i ==> !Matches(maps[j], q)
      {
        var a := maps[i];
        if Matches(a, q) {
          assert IsFirstMatch(maps, q, i);
          return a.abbr;
        }
        i := i + 1;
      }
      return None;
    }
  }

  // ---------------------------------------------------------------------
  // Properties of the lookup
  // ---------------------------------------------------------------------

  /** At most one record is the first match of a query. */
  lemma FirstMatchUnique(s: seq<MapEntry>, q: Query, i: int, k: int)
    requires IsFirstMatch(s, q, i) && IsFirstMatch(s, q, k)
    ensures i == k
  {
  }

  /** Both lookups read the same record, or both answer `None` because nothing is selected. */
  lemma LookupsSelectSameRecord(s: seq<MapEntry>, q: Query)
    ensures NoMatch(s, q) ==> Filename(s, q) == None && Abbr(s, q) == None
    ensures !NoMatch(s, q) ==>
      exists i :: IsFirstMatch(s, q, i) && Filename(s, q) == s[i].mapFile && Abbr(s, q) == s[i].abbr
  {
    if !NoMatch(s, q) {
      var i := FirstMatch(s, q).value;
      assert IsFirstMatch(s, q, i);
    }
  }

  /** Every record carries its file and abbreviation. */
  ghost predicate Complete(s: seq<MapEntry>)
  {
    forall i :: 0 <= i < |s| ==> s[i].mapFile.Some? && s[i].abbr.Some?
  }

  /** In a complete catalog a lookup answers `None` exactly when no record is selected. */
  lemma AbsentIffNoMatch(s: seq<MapEntry>, q: Query)
    requires Complete(s)
    ensures Filename(s, q).None? <==> NoMatch(s, q)
    ensures Abbr(s, q).None? <==> NoMatch(s, q)
  {
    if !NoMatch(s, q) {
      var i := FirstMatch(s, q).value;
      assert IsFirstMatch(s, q, i);
    }
  }

  /** Searching `s + t` finds the first match of `s`, and otherwise the first match of `t`. */
  lemma {:induction false} FirstMatchAppend(s: seq<MapEntry>, t: seq<MapEntry>, q: Query)
    ensures FirstMatch(s + t, q) ==
      match FirstMatch(s, q)
      case Some(i) => Some(i)
      case None =>
        match FirstMatch(t, q)
        case Some(j) => Some(|s| + j)
        case None => None
  {
    if s == [] {
      assert s + t == t;
    } else {
      var st := s + t;
      assert st[0] == s[0];
      assert st[1..] == s[1..] + t;
      if !Matches(s[0], q) {
        FirstMatchAppend(s[1..], t, q);
        assert FirstMatch(st, q) ==
          match FirstMatch(s[1..] + t, q)
          case None => None
          case Some(i) => Some(i + 1);
      }
    }
  }

  /** Shadowing: adding a record does not change the answer to a query that already had a match. */
  lemma AppendKeepsEarlierMatch(s: seq<MapEntry>, e: MapEntry, q: Query)
    requires !NoMatch(s, q)
    ensures FirstMatch(s + [e], q) == FirstMatch(s, q)
    ensures Filename(s + [e], q) == Filename(s, q)
    ensures Abbr(s + [e], q) == Abbr(s, q)
  {
    FirstMatchAppend(s, [e], q);
    var i := FirstMatch(s, q).value;
    assert (s + [e])[i] == s[i];
  }

  /** A query with no match so far is answered by the added record, if that record is selected. */
  lemma AppendAnswersUnmatched(s: seq<MapEntry>, e: MapEntry, q: Query)
    requires NoMatch(s, q)
    ensures FirstMatch(s + [e], q) == if Matches(e, q) then Some(|s|) else None
    ensures Filename(s + [e], q) == if Matches(e, q) then e.mapFile else None
    ensures Abbr(s + [e], q) == if Matches(e, q) then e.abbr else None
  {
    FirstMatchAppend(s, [e], q);
    assert (s + [e])[|s|] == e;
  }

  /** A later record with the same four keys as an earlier one is never returned. */
  lemma LaterDuplicateUnreachable(s: seq<MapEntry>, i: int, k: int, q: Query)
    requires 0 <= i < k < |s|
    requires s[i].icvn == s[k].icvn && s[i].vriic == s[k].vriic
    requires s[i].fic == s[k].fic && s[i].tspc == s[k].tspc
    ensures FirstMatch(s, q) != Some(k)
  {
    if Matches(s[k], q) {
      assert Matches(s[i], q);
    }
  }

  /** `s` and `t` hold the same records except perhaps for their purpose codes. */
  ghost predicate SameExceptTspc(s: seq<MapEntry>, t: seq<MapEntry>)
  {
    |s| == |t| && forall i :: 0 <= i < |s| ==> s[i].(tspc := t[i].tspc) == t[i]
  }

  /** A query without a purpose code ignores the records' purpose codes altogether. */
  lemma {:induction false} WildcardIgnoresTspc(s: seq<MapEntry>, t: seq<MapEntry>, q: Query)
    requires q.tspc.None?
    requires SameExceptTspc(s, t)
    ensures FirstMatch(s, q) == FirstMatch(t, q)
    ensures Filename(s, q) == Filename(t, q) && Abbr(s, q) == Abbr(t, q)
  {
    if s != [] {
      assert s[0].(tspc := t[0].tspc) == t[0];
      assert Matches(s[0], q) == Matches(t[0], q);
      assert SameExceptTspc(s[1..], t[1..]) by {
        forall i | 0 <= i < |s[1..]|
          ensures s[1..][i].(tspc := t[1..][i].tspc) == t[1..][i]
        {
          assert s[1..][i] == s[i + 1] && t[1..][i] == t[i + 1];
        }
      }
      WildcardIgnoresTspc(s[1..], t[1..], q);
      match FirstMatch(s, q)
      case None =>
      case Some(i) =>
        assert s[i].(tspc := t[i].tspc) == t[i];
    }
  }

  /**
    A query with a purpose code only selects records with that very code, and dropping
    the code from the query selects the same record or an earlier one.
  */
  lemma WildcardFindsNoLater(s: seq<MapEntry>, q: Query)
    requires FirstMatch(s, q).Some?
    ensures q.tspc.Some? ==> s[FirstMatch(s, q).value].tspc == q.tspc
    ensures FirstMatch(s, q.(tspc := None)).Some?
    ensures FirstMatch(s, q.(tspc := None)).value <= FirstMatch(s, q).value
  {
    var i := FirstMatch(s, q).value;
    assert Matches(s[i], q.(tspc := None));
  }

  // ---------------------------------------------------------------------
  // Properties of the construction
  // ---------------------------------------------------------------------

  /** The `m`-th record of one version's records comes from its `m`-th `map` element. */
  lemma {:induction false} EntriesAt(icvn: Attr, ms: seq<MapElement>, m: int)
    requires 0 <= m < |ms|
    ensures Entries(icvn, ms)[m] == EntryOf(icvn, ms[m])
  {
    if m < |ms| - 1 {
      assert ms[..|ms| - 1][m] == ms[m];
      EntriesAt(icvn, ms[..|ms| - 1], m);
    }
  }

  /**
    Document order: the `m`-th `map` of the `v`-th `version` becomes the record after
    the records of all earlier versions, and it carries the `icvn` of its own version.
  */
  lemma {:induction false} FlattenAt(vs: seq<VersionElement>, v: int, m: int)
    requires 0 <= v < |vs| && 0 <= m < |vs[v].maps|
    ensures CountMaps(vs[..v]) + m < |Flatten(vs)|
    ensures Flatten(vs)[CountMaps(vs[..v]) + m] == EntryOf(vs[v].icvn, vs[v].maps[m])
  {
    var n := |vs|;
    var init := vs[..n - 1];
    if v == n - 1 {
      assert vs[..v] == init;
      EntriesAt(vs[v].icvn, vs[v].maps, m);
    } else {
      assert init[..v] == vs[..v];
      assert init[v] == vs[v];
      FlattenAt(init, v, m);
    }
  }

  /** Record `k` of the catalog is the `m`-th `map` of the `v`-th `version`. */
  ghost predicate IsOrigin(vs: seq<VersionElement>, k: int, v: int, m: int)
  {
    0 <= v < |vs| && 0 <= m < |vs[v].maps| && k == CountMaps(vs[..v]) + m
  }

  /** Conversely, every record of the catalog comes from some `map` element of some `version`. */
  lemma {:induction false} FlattenCovers(vs: seq<VersionElement>, k: int)
    requires 0 <= k < |Flatten(vs)|
    ensures exists v, m :: IsOrigin(vs, k, v, m)
  {
    var n := |vs|;
    var init := vs[..n - 1];
    if k < CountMaps(init) {
      FlattenCovers(init, k);
      var v, m :| IsOrigin(init, k, v, m);
      assert init[..v] == vs[..v] && init[v] == vs[v];
      assert IsOrigin(vs, k, v, m);
    } else {
      assert vs[..n - 1] == init;
      assert IsOrigin(vs, k, n - 1, k - CountMaps(init));
    }
  }
}
