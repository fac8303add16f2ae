# Record selection of the Job Guardian MCP server

This project is a Dafny model of how the MCP server in `mcp_server/server.py` picks the records it returns. The server has three lookup tools:

- `esg_hr`: ESG human-resources disclosures.
- `labor_violations`: Labor Standards Act violations.
- `ge_work_equality_violations`: Gender Equality in Employment Act violations.

Each tool downloads a government CSV file and cleans every record (strip keys and values). It then walks the records in order:

- It reads the company column through `_pick`, the first candidate column that is present and non-empty.
- It skips the record when that column is missing, names another company or is for another year.
- Otherwise it appends the record's projected item and stops once the output reaches `limit`.

The two violation tools also count the returned items by the first four characters of their date.

`esg_hr` compares company names with `_match_company`:

- It compares the raw names and the names that `normalize_company_name` returns.
- The normaliser applies NFKC, strips the name, removes bracketed text and every whitespace character, then removes one legal-form suffix matched by `SUFFIX_PAT`.
- The comparison is exact or substring, and lower-cases first unless it is case-sensitive.

The violation tools use a plain substring test, and each applies its own `since_year` filter:

- `labor_violations` compares the value of the date's four leading digits.
- `ge_work_equality_violations` looks for `str(since_year)` anywhere in the date.

## Modules

| file | module | what it holds |
|---|---|---|
| `wrappers.dfy` | `Wrappers` | `Option` |
| `text.dfy` | `Text` | Python string primitives: `strip`, `\s` deletion, `in`, `str(int)`, `isdigit`/`int` |
| `company_names.dfy` | `CompanyNames` | `SUFFIX_PAT` and `normalize_company_name` |
| `matching.dfy` | `Matching` | `_match_company` |
| `rows.dfy` | `Rows` | the cleaned record, the clean-up comprehension, `_pick` |
| `selection.dfy` | `Selection` | the shared "keep, project, stop at the limit" walk |
| `year_counts.dfy` | `YearCounts` | `count_by_year` |
| `tools.dfy` | `Tools` | the three tools |

Each tool is modelled twice:

- A method with the source's loop (`Tools.EsgHr`, `Tools.LaborViolations`, `Tools.GeWorkEqualityViolations`). Its postcondition ties the response to a specification function.
- That specification function (`EsgHrOf`, `LaborViolationsOf`, `GeViolationsOf`): the first `max(limit, 1)` items of the kept records. Lemmas state what it promises.

## Model

| member | source | states |
|---|---|---|
| Text.IsSpace | mcp_server/server.py:77-79 | the characters `str.strip()` removes and `\s` matches (Python's `str.isspace`); the trimming and deletion contracts below are stated in terms of it |
| Text.TrimStart | mcp_server/server.py:77 | `lstrip` returns a suffix of its input that does not start with whitespace |
| Text.TrimEnd | mcp_server/server.py:77 | `rstrip` returns a prefix of its input that does not end with whitespace |
| Text.TrimStartDropsSpaces | mcp_server/server.py:77 | every character `lstrip` removes is whitespace |
| Text.TrimEndDropsSpaces | mcp_server/server.py:77 | every character `rstrip` removes is whitespace |
| Text.Strip | mcp_server/server.py:77 | `strip` leaves neither end as whitespace, never lengthens, and leaves an already stripped string unchanged |
| Text.StripRemovesEdgeSpaces | mcp_server/server.py:77 | `strip` returns a contiguous middle part `s[a:b]` of its input, and every character before `a` and from `b` on is whitespace |
| Text.DeleteSpaces | mcp_server/server.py:79 | `re.sub(r"\s+", "", s)` leaves no whitespace, never lengthens, and is the identity on whitespace-free text |
| Text.DeleteSpacesAppend | mcp_server/server.py:79 | deleting whitespace distributes over concatenation |
| Text.DeleteSpacesOfChar | mcp_server/server.py:79 | a single whitespace character is deleted and any other character is kept; with `DeleteSpacesAppend` this pins the result on every string |
| Text.Contains | mcp_server/server.py:153 | `p in s` on strings; `ContainsAt` states its meaning |
| Text.ContainsAt | mcp_server/server.py:153 | `p in s` holds exactly when `p` occurs in `s` at some offset |
| Text.NatDecimal | mcp_server/server.py:195 | `str(n)` is a non-empty run of digits with no leading zero |
| Text.DecimalOf | mcp_server/server.py:195 | `str(n)` of any integer is non-empty, digits after an optional minus sign, and those digits read back as `abs(n)` |
| Text.IsDigits | mcp_server/server.py:273 | `y.isdigit()` on ASCII digits: false on `""`; `LaborItemsFitQuery` and the year-filter lemmas state what it lets through |
| Text.DigitsValue | mcp_server/server.py:273 | `int(y)` for a digit string; `NatDecimalRoundTrip` states it inverts `str` |
| Text.NatDecimalRoundTrip | mcp_server/server.py:273 | `int(str(n)) == n` for every natural number |
| Text.NatDecimalOfYear | mcp_server/server.py:337 | a four-digit year prints as its four digits, most significant first |
| Text.Prefix | mcp_server/server.py:270 | `s[:n]` is a prefix of `s` of length `min(len(s), n)` |
| CompanyNames.SuffixMatchAt | mcp_server/server.py:70 | `SUFFIX_PAT` matches at a position: the rest of the text, or the rest before a final newline, is one of the thirteen strings in `LegalSuffixes`; `LegalSuffixChars` states their shape |
| CompanyNames.FirstSuffixMatch | mcp_server/server.py:70 | finds the leftmost position from which the rest of the text is a legal-form suffix; no earlier position qualifies |
| CompanyNames.SubLegalSuffix | mcp_server/server.py:80 | without a final newline, `SUFFIX_PAT.sub` returns a prefix of the text that is the whole text or is followed by a legal suffix, and no legal suffix starts inside it; with a final newline, it returns the text or a prefix followed by that newline, with a legal suffix in between |
| CompanyNames.SubLegalSuffixLeftmost | mcp_server/server.py:80 | the substitution changes the text exactly when the pattern matches somewhere, and then no match starts before the cut, with or without a final newline, which the result keeps |
| CompanyNames.SubLegalSuffixCuts | mcp_server/server.py:80 | when the leftmost suffix starts at `i` and there is no final newline, the result is the first `i` characters |
| CompanyNames.LegalSuffixChars | mcp_server/server.py:70 | the thirteen suffixes the pattern matches are 2 to 8 characters long, start with one of 股/有/公/C and end with 司, `d` or `.` |
| CompanyNames.FindClose | mcp_server/server.py:78 | the lazy `.*?` stops at the first closing bracket on the same line, and fails when every closing bracket lies past a newline |
| CompanyNames.DropBracketed | mcp_server/server.py:78 | deleting bracketed parts, in full-width or ASCII brackets, never lengthens the text; the lemmas below state exactly what it keeps and what it deletes |
| CompanyNames.DropBracketedPlainPrefix | mcp_server/server.py:78 | text before the first opening bracket is kept unchanged |
| CompanyNames.DropBracketedRemovesSegment | mcp_server/server.py:78 | an opener, the text up to the first matching closer on the same line, and that closer are deleted; the text before is kept, and the text after is processed on its own |
| CompanyNames.DropBracketedKeepsUnclosed | mcp_server/server.py:78 | an opener with no matching closer on its line is kept, and processing goes on after it |
| CompanyNames.DropBracketedIsBracketless | mcp_server/server.py:78 | after the bracket substitution no opening bracket has its closing bracket later on the same line |
| CompanyNames.DropBracketedOfBracketless | mcp_server/server.py:78 | the bracket substitution leaves text without bracketed parts unchanged |
| CompanyNames.Normalize | mcp_server/server.py:73-81 | an empty name normalises to `""`, and a normalised name contains no whitespace |
| CompanyNames.NormalizeOfCleanText | mcp_server/server.py:77-80 | on NFKC-stable, stripped text without brackets, normalising is deleting whitespace, then removing the suffix |
| CompanyNames.NormalizeOfFinalName | mcp_server/server.py:77-80 | a clean name without any legal suffix normalises to itself |
| CompanyNames.NormalizeRemovesOneSuffix | mcp_server/server.py:73-81 | a clean core followed by one legal suffix normalises to the core |
| CompanyNames.NormalizeIsNotIdempotent | mcp_server/server.py:73-81 | only one suffix is removed per call: `公司公司` normalises to `公司`, and normalising again gives `""` |
| Matching.Match | mcp_server/server.py:140-155 | `_match_company`: lower-case both sides unless case-sensitive, normalise both, then compare raw or normalised names, by substring or by equality; the four lemmas below state its properties |
| Matching.MatchReflexive | mcp_server/server.py:140-155 | every name matches itself, whatever the settings |
| Matching.ExactMatchImpliesPartial | mcp_server/server.py:152-155 | turning on partial matching never loses a match |
| Matching.EmptyQueryMatchesEveryRow | mcp_server/server.py:152-153 | with partial matching, an empty query matches every name |
| Matching.EnglishSuffixSurvivesCaseFolding | mcp_server/server.py:142-155 | `SUFFIX_PAT` runs after lower-casing, so case-insensitive exact matching does not match `ACME Co.,Ltd.` with `ACME`, while case-sensitive matching does |
| Rows.CleanRow | mcp_server/server.py:114 | the cleaned record built from the raw fields in order; `CleanRowFrom` and `CleanRowLastWins` state its contents |
| Rows.CleanKey | mcp_server/server.py:114 | `(k or "").strip()`; `CleanRowFrom` states that every key of a cleaned record is one of these |
| Rows.CleanValue | mcp_server/server.py:114 | `(v or "").strip()`; `CleanRowFrom` and `CleanRowLastWins` state that the values are these |
| Rows.InsertAll | mcp_server/server.py:114 | building a dict from pairs in order; `InsertAllFrom` and `InsertAllLastWins` state its entries |
| Rows.InsertAllFrom | mcp_server/server.py:114 | every entry of the built dictionary is one of the inserted pairs |
| Rows.InsertAllLastWins | mcp_server/server.py:114 | a pair whose key no later pair repeats supplies that key's value |
| Rows.CleanRowFrom | mcp_server/server.py:114 | every key and value of a cleaned record is stripped and comes from one field of the raw record (`None` read as `""`) |
| Rows.CleanRowLastWins | mcp_server/server.py:114 | when two fields strip to the same key, the later field's stripped value wins |
| Rows.FirstUsable | mcp_server/server.py:158-163 | the first candidate column that is present and non-empty, with every earlier candidate unusable |
| Rows.Pick | mcp_server/server.py:158-163 | `_pick` returns `None` exactly when no candidate is usable; otherwise it returns the non-empty value of the first usable candidate |
| Selection.Select | mcp_server/server.py:187-227 | selecting never yields more items than there are records (the order is stated by `SelectIsKeptRows`) |
| Selection.Cap | mcp_server/server.py:228-229 | the limit check follows the append, so at most `max(limit, 1)` items come back: `limit` itself when it is positive, one otherwise |
| Selection.Capped | mcp_server/server.py:228-229 | the capped output is a prefix of all matches, of length `min(len, max(limit, 1))` |
| Selection.SelectPrefix | mcp_server/server.py:187-229 | stopping early gives a prefix of the full selection |
| Selection.SelectExtend | mcp_server/server.py:187-227 | one more record appends its item exactly when the record is kept |
| Selection.CappedAtStop | mcp_server/server.py:228-229 | a walk that breaks on reaching the cap has produced exactly the capped selection |
| Selection.CappedAtEnd | mcp_server/server.py:187-229 | a walk that runs out of records below the cap has produced the whole selection |
| Selection.CappedWithin | mcp_server/server.py:228-229 | every returned item is one of the matches |
| Selection.KeptIndices | mcp_server/server.py:187-227 | the kept positions, in increasing order, and every kept position among them |
| Selection.SelectIsKeptRows | mcp_server/server.py:187-227 | the k-th item is the projection of the k-th kept record |
| YearCounts.CountByYear | mcp_server/server.py:287-288 | the `by_year` counters after the given year prefixes; `CountByYearCounts` and `CountByYearTotal` state its keys, values and sum |
| YearCounts.Bump | mcp_server/server.py:288 | `by_year[y] = by_year.get(y, 0) + 1` adds `y` as a key, raises its count by one and changes nothing else |
| YearCounts.CountByYearSnoc | mcp_server/server.py:287-288 | one more prefix bumps its counter, unless it is empty |
| YearCounts.Occurrences | mcp_server/server.py:287-288 | the number of occurrences is positive exactly when the prefix occurs |
| YearCounts.CountByYearCounts | mcp_server/server.py:287-288 | the keys are exactly the non-empty prefixes that occur, and each counts its occurrences |
| YearCounts.TotalBump | mcp_server/server.py:288 | one bump adds one to the sum of the counters |
| YearCounts.CountByYearTotal | mcp_server/server.py:287-288 | the counters add up to the number of non-empty prefixes |
| Tools.PyStr | mcp_server/server.py:195 | `str(v)` for an optional string, with `None` printed as `"None"`; `NoneIsNotDecimal` states that it never equals a year's text |
| Tools.EsgItemOf | mcp_server/server.py:198-226 | the `esg_hr` item: code, name, year, median and average salary, female-manager ratio, each the first usable column of its candidates, plus the whole record; `EsgRow` states it is the item built for a kept record |
| Tools.EsgKeeps | mcp_server/server.py:188-196 | `esg_hr` keeps a record with a company name that `_match_company` accepts and, under a year, `str(year) == str(y)`; `EsgRow` and `EsgItemsFitQuery` state it |
| Tools.EsgItemsFitQuery | mcp_server/server.py:188-196 | every `esg_hr` match has a non-empty company name that matches the query and, under a year, has that year's text as its year column |
| Tools.NoneIsNotDecimal | mcp_server/server.py:195-196 | `str(year)` is never `"None"`, so a record without a year column fails a year filter |
| Tools.EsgMatches | mcp_server/server.py:187-227 | every `esg_hr` item for the query before the limit; `EsgItemsFitQuery` states what each item satisfies, and `EsgHrAnswer` states that the answer is its capped prefix |
| Tools.EsgHrOf | mcp_server/server.py:187-237 | the `esg_hr` answer: the first `max(limit, 1)` matches, their count and the query; `EsgHrAnswer` states its properties and `EsgHr` computes it |
| Tools.EsgHrAnswer | mcp_server/server.py:187-237 | `count` equals the number of items, at most `max(limit, 1)`; the items are the first matches in record order, all of them when under the cap, and each fits the query |
| Tools.EsgRow | mcp_server/server.py:188-226 | one record yields its item exactly when its company name is present, matches and has the year asked for |
| Tools.EsgHr | mcp_server/server.py:187-237 | the loop returns `EsgHrOf`: the capped matches, their count and the query echoed back |
| Tools.YearPrefix | mcp_server/server.py:333-334 | `(date or "")[:4]`, the year prefix an item is counted under; `CountByYearMatchesItems` states the counters in terms of it |
| Tools.ViolationItemOf | mcp_server/server.py:276-284 | a violation item: violator name, date from the given date columns, authority, article, article text and fine, plus the whole record; `LaborRow` and `GeRow` state it is the item built for a kept record |
| Tools.LaborItemOf | mcp_server/server.py:269-284 | the `labor_violations` item, with the five date columns of line 269 |
| Tools.GeItemOf | mcp_server/server.py:333-348 | the `ge_work_equality_violations` item, with the four date columns of line 333 |
| Tools.YearPrefixes | mcp_server/server.py:269-270 | one year prefix per returned item |
| Tools.LaborMatches | mcp_server/server.py:259-285 | every `labor_violations` item for the query before the limit; `LaborItemsFitQuery` states what each satisfies, and `LaborViolationsAnswer` states that the answer is its capped prefix |
| Tools.GeMatches | mcp_server/server.py:323-349 | every `ge_work_equality_violations` item for the query before the limit; `GeItemsFitQuery` states what each satisfies, and `GeViolationsAnswer` states that the answer is its capped prefix |
| Tools.LaborYearFilter | mcp_server/server.py:270-274 | `labor_violations` keeps a date under `since_year` when its four leading characters are digits worth at least `since_year`; the year-filter lemmas state its behaviour |
| Tools.GeYearFilter | mcp_server/server.py:333-338 | `ge_work_equality_violations` keeps a date under `since_year` when `str(since_year)` occurs in it; the year-filter lemmas state its behaviour |
| Tools.LaborKeeps | mcp_server/server.py:260-274 | `labor_violations` keeps a record whose violator name contains the query and whose date passes the year filter; `LaborRow` and `LaborItemsFitQuery` state it |
| Tools.GeKeeps | mcp_server/server.py:325-338 | `ge_work_equality_violations` keeps a record whose violator name contains the query and whose date passes the year filter; `GeRow` and `GeItemsFitQuery` state it |
| Tools.LaborItemsFitQuery | mcp_server/server.py:260-274 | every `labor_violations` match names a violator containing the query and, under `since_year`, has a date whose four leading characters are digits worth at least `since_year` |
| Tools.GeItemsFitQuery | mcp_server/server.py:325-338 | every `ge_work_equality_violations` match names a violator containing the query and, under `since_year`, has a date containing `str(since_year)` |
| Tools.LaborFilterOnLeadingYear | mcp_server/server.py:269-274 | a date starting with a four-digit year `n` passes the labor filter for every `since_year <= n` |
| Tools.YearFiltersAgreeOnLeadingYear | mcp_server/server.py:273-274 | on a date starting with the four-digit year asked for, both year filters pass |
| Tools.LaterYearOnlyPassesLaborFilter | mcp_server/server.py:337-338 | `2025/03/01` passes the labor filter for 2024 but not the gender-equality filter |
| Tools.DayFirstDateOnlyPassesGeFilter | mcp_server/server.py:273-274 | `01/02/2024` passes the gender-equality filter for 2024 but not the labor filter |
| Tools.CountByYearMatchesItems | mcp_server/server.py:285-300 | `count_by_year`'s keys are exactly the items' non-empty year prefixes, each counts its items, and the counters sum to the items with a non-empty prefix |
| Tools.ViolationAnswer | mcp_server/server.py:293-300 | the returned dict for given items: the items, their count, `count_by_year`, the query, `since_year` and `partial_match` set to true; `CountByYearMatchesItems` states its counters |
| Tools.LaborViolationsOf | mcp_server/server.py:259-300 | the `labor_violations` answer: the first `max(limit, 1)` matches, their count and per-year counters; `LaborViolationsAnswer` and `CountByYearMatchesItems` state its properties |
| Tools.GeViolationsOf | mcp_server/server.py:323-364 | the `ge_work_equality_violations` answer, built the same way; `GeViolationsAnswer` and `CountByYearMatchesItems` state its properties |
| Tools.LaborViolationsAnswer | mcp_server/server.py:259-300 | `count` equals the number of items, at most `max(limit, 1)`; the items are the first matches in record order, all of them when under the cap, and each fits the query |
| Tools.GeViolationsAnswer | mcp_server/server.py:323-364 | `count` equals the number of items, at most `max(limit, 1)`; the items are the first matches in record order, all of them when under the cap, and each fits the query |
| Tools.CountStep | mcp_server/server.py:285-288 | appending an item bumps its year prefix's counter, unless the prefix is empty |
| Tools.YearPrefixesSnoc | mcp_server/server.py:285-288 | appending an item appends its year prefix |
| Tools.LaborRow | mcp_server/server.py:260-284 | one record yields its item exactly when it names a violator containing the query and passes the numeric year filter |
| Tools.LaborViolations | mcp_server/server.py:259-300 | the loop returns `LaborViolationsOf`: the capped matches, their count and the per-year counters |
| Tools.GeRow | mcp_server/server.py:325-348 | one record yields its item exactly when it names a violator containing the query and passes the substring year filter |
| Tools.GeWorkEqualityViolations | mcp_server/server.py:323-364 | the loop returns `GeViolationsOf`: the capped matches, their count and the per-year counters |

## Left out

- Downloading the CSV file (`requests`, then `httpx`), decoding it (utf-8, cp950, big5, latin-1) and parsing it with `csv.DictReader` are not modelled. The records are an input, each a list of key/value fields.
- Records with surplus cells are not modelled. For those, `csv.DictReader` puts a list under the `None` key, and the clean-up's `.strip()` on that list raises. In the model a value is either a string or `None`.
- The responses' `source_url` and `fetched_at` fields are left out: `fetched_at` comes from the clock (`_iso_now`) and the URLs are constants.
- The `CASE_SENSITIVE` and `PARTIAL_MATCH` environment settings are a `MatchConfig` parameter. `HTTP_TIMEOUT`, the IPv4 patch and the FastMCP/argparse entry point are not modelled.
- Matching.Match: Unicode NFKC normalisation and `str.lower` are parameters (`TextOps`), not interpreted. Properties that need their behaviour state it as a precondition on those parameters.
- Text.IsDigits: `str.isdigit()` and `int()` are modelled on ASCII digits only. Python also accepts other Unicode decimal digits, and `isdigit` accepts superscripts, on which `int()` raises.
- The `[WARN]` messages the fetcher prints and its exceptions are not modelled, because the records are an input.
- The telemetry, agent and web files of the repository are not part of this model.
