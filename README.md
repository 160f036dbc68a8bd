# pyx12 map index, modelled in Dafny

pyx12 validates ANSI X12 EDI documents against XML maps. Before it can
validate a transaction set, it has to choose the map. The class `map_index`
holds the catalog of maps that `maps.xml` describes. Its records are kept in
document order. A lookup takes four values:

- the Interchange Control Version Number (`icvn`, ISA12);
- the Version / Release / Industry Identifier Code (`vriic`, GS08);
- the Functional Identifier Code (`fic`, GS01);
- an optional Transaction Set Purpose Code (`tspc`, BHT02).

It returns the map file name (`get_filename`) or the short name
(`get_abbr`) of the first record that matches.

The model has two files:

- `wrappers.dfy` holds `Option`, which stands for Python's `None` or a value.
- `map_index.dfy` holds module `MapIndex`:
  - the record datatype `MapEntry`;
  - the query datatype `Query`;
  - the already parsed catalog document, as `VersionElement` and `MapElement`;
  - the selection test `Matches`;
  - the pure specification `FirstMatch`, with its answers `Filename` and `Abbr`;
  - the construction `Flatten`;
  - the class `MapIndex`. Its field `maps: seq<MapEntry>` is the list that the
    Python object appends to. Its constructor runs the nested loops of
    `__init__` by calling `AddMap`. `GetFilename` and `GetAbbr` are the two
    linear scans with early return.

Each attribute value, and the text of each `map` element, is an
`Option<string>`. ElementTree gives `None` for a missing attribute or an empty
element, and the index stores whatever it is given. This has one consequence.
If the first matching record has no text, `get_filename` answers `None`. It
does not go on to a later match. The same holds for `get_abbr` and a record
with no `abbr`. `Filename` and `Abbr` state this. `AbsentIffNoMatch` proves
that "`None` exactly when nothing matches" holds when every record carries
both values.

`GetFilename` and `GetAbbr` have no `modifies` clause. Dafny therefore
guarantees that they leave `maps`, and everything else, unchanged.

## Model

| member | source | states |
|---|---|---|
| `MapIndex.FirstMatch` | pyx12/map_index.py:72-76 | the result is the position of a record that matches (equal icvn, vriic, fic; and query tspc absent or equal to the record's), with no match before it; it is absent exactly when no record matches |
| `MapIndex.Filename` | pyx12/map_index.py:66-76 | the answer is `None` when no record matches, and otherwise the map file of the first matching record, even when that map file is `None` |
| `MapIndex.Abbr` | pyx12/map_index.py:78-88 | the answer is `None` when no record matches, and otherwise the abbreviation of the first matching record |
| `MapIndex.MapIndex.GetFilename` | pyx12/map_index.py:66-76 | the linear scan over `maps`, in insertion order, returns what `Filename` specifies; `tspc` defaults to `None` |
| `MapIndex.MapIndex.GetAbbr` | pyx12/map_index.py:78-88 | the linear scan over `maps`, in insertion order, returns what `Abbr` specifies; `tspc` defaults to `None` |
| `MapIndex.MapIndex.AddMap` | pyx12/map_index.py:62-64 | `maps` becomes the old list followed by exactly one new record holding the six given values |
| `MapIndex.MapIndex.constructor` | pyx12/map_index.py:57-60 | after loading, `maps` is `Flatten` of the version elements: an empty list, then one `AddMap` per map element |
| `MapIndex.Entries` | pyx12/map_index.py:59-60 | one version contributes exactly one record per map element |
| `MapIndex.Flatten` | pyx12/map_index.py:57-60 | the catalog has exactly as many records as the document has map elements |
| `MapIndex.EntriesAt` | pyx12/map_index.py:59-60 | the m-th record of a version comes from its m-th map element and carries the version's icvn |
| `MapIndex.FlattenAt` | pyx12/map_index.py:57-60 | the m-th map of the v-th version is stored right after the records of all earlier versions, with the icvn of its own version and its own vriic, fic, tspc, text and abbr |
| `MapIndex.FlattenCovers` | pyx12/map_index.py:57-60 | every record of the catalog stands at the position of some map element of some version, so no record is made up |
| `MapIndex.FirstMatchUnique` | pyx12/map_index.py:72-75 | at most one record is the first match of a query |
| `MapIndex.LookupsSelectSameRecord` | pyx12/map_index.py:72-88 | for every query, `get_filename` and `get_abbr` both read the same first matching record, or both answer `None` because no record matches |
| `MapIndex.AbsentIffNoMatch` | pyx12/map_index.py:72-88 | in a catalog whose records all carry a file and an abbreviation, each lookup answers `None` if and only if no record matches |
| `MapIndex.FirstMatchAppend` | pyx12/map_index.py:72-75 | a search over `s + t` finds the first match in `s`; when `s` has none, it finds the first match in `t`, shifted by `|s|` |
| `MapIndex.AppendKeepsEarlierMatch` | pyx12/map_index.py:62-75 | shadowing: after a record is appended, a query that already had a match gets the same record, file and abbreviation |
| `MapIndex.AppendAnswersUnmatched` | pyx12/map_index.py:62-76 | after a record is appended, a query that had no match is answered by the new record if it matches, and by `None` otherwise |
| `MapIndex.LaterDuplicateUnreachable` | pyx12/map_index.py:72-75 | a record with the same icvn, vriic, fic and tspc as an earlier record is never returned by any query |
| `MapIndex.WildcardIgnoresTspc` | pyx12/map_index.py:74 | a query without tspc gives the same record, file and abbreviation for two catalogs that differ only in their records' tspc values |
| `MapIndex.WildcardFindsNoLater` | pyx12/map_index.py:73-74 | a query with a tspc only selects a record with that very tspc, and the same query without tspc selects that record or an earlier one |

## Left out

- Locating and parsing `maps.xml` is left out. This covers `ET.parse`, `ET.fromstring` and `pkgutil.get_data` (pyx12/map_index.py:48-56). These are library calls and file I/O. The model starts from the parsed `version` elements, in the order `et.iter('version')` visits them, and from their `map` children.
- The override-directory checks (`os.path.isdir`) are left out, and so are the `OSError` and `MapIndexError` they raise (pyx12/map_index.py:42-47, 54-55). They are filesystem I/O. The second check at line 46 repeats the directory test; it does not test that `maps.xml` exists. So a missing file is reported by `open` itself, not by that check's message.
- Logging and `print_all` are left out (pyx12/map_index.py:39, 90-92). They only produce side effects.
- Python's dynamic typing is left out. Every attribute is modelled as an optional string. A caller that passes a non-string value is not modelled.
- The end-to-end tests `pyx12/tests/x12n_document.py` are not part of this model. They drive the tokenizer, the validator and the 997 generator, and those are not among the modelled files.
