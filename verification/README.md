# topiary-playground build script, modelled in Dafny

The topiary playground bundles every language's formatting queries
(`languages/*.scm`) and its sample input (`topiary/tests/samples/input/*`)
into a generated TypeScript module, `languages_export.ts`. The generation
happens at build time in `topiary-playground/build.rs`. This project models
that script without its I/O:

- `to_js_string` escapes file text so it can sit between the backticks of a
  JavaScript template literal. The literal grammar is section 11.8.6 of
  ECMA-262, 2015 edition. The script runs three `str::replace` passes: it
  doubles backslashes, then escapes backticks, then escapes `${`
  (`escape.dfy`, module `TemplateEscape`).
- The two directory scans filter a listing by extension. The query scan keeps
  `scm`. The input scan keeps known extensions except `mli`. Each scan
  escapes the text of every kept file and inserts it under the file stem, so
  the last write wins (`scan.dfy`, module `AssetScan`).
- The query names are sorted in Rust `String` order (`order.dfy`, module
  `KeyOrder`). Only names that also have a sample input are kept, and each
  one becomes a record (`bundle.dfy`, module `Bundle`).
- The records are rendered between the fixed header and footer
  (`render.dfy`, module `Render`). `build.dfy` (module `BuildScript`) chains
  the steps the way `main` does.

The file system, the configuration and the language registry are not part
of the model. Directory listings are values. The known extensions are a
`set<string>` parameter. `SupportedLanguage::is_supported` is a
`string -> bool` parameter. The generated text is returned rather than
written. Every `unwrap()` on listing a directory or reading a kept file
becomes an `Abort` outcome: an unlistable directory, or a kept file that
cannot be read as text. Files
the filter skips are never read, so they cannot abort the run.

Notes on the source as written:

- `str::replace` finds matches from the left and never overlaps them. Because
  backslashes are doubled first, the backslashes added by the later passes
  are never doubled. `TemplateEscape.ThreePassesAreOnePass` proves that the
  three passes equal a single left-to-right scan.
- Rust compares `String`s by their UTF-8 bytes. UTF-8 preserves code-point
  order, so `KeyOrder.Below` compares characters lexicographically.
- The loop sorts `(name, query)` pairs. Names are unique map keys, so this is
  the same as sorting by name.
- Whether a scan succeeds never depends on enumeration order. The map a
  successful scan builds depends on the order only when two kept files share
  a stem. In the query scan that cannot happen, because a directory holds one
  `x.scm` per stem. In the input scan it can happen for a stem with two known
  extensions other than `mli`. There the last file enumerated wins. When a
  scan aborts, which unreadable file it reports does depend on the order
  (`AssetScan.AbortReportDependsOnOrder`).
- The comment at build.rs:59 (`skip ocaml.mli, keep ocaml.ml`) could be read
  as skipping `mli` only next to an `ml`. The code skips every `mli` file, and
  the model follows the code.

## Model

| member | source | states |
|---|---|---|
| TemplateEscape.Escape | topiary-playground/build.rs:10-20 | `to_js_string` as the three `replace` passes in the source's order; what they promise is stated by TemplateEscape.EscapeSpec |
| TemplateEscape.ReplaceWithoutMatch | topiary-playground/build.rs:14-19 | `str::replace` (leftmost matches, no overlap) returns its input unchanged when the pattern does not occur in it |
| TemplateEscape.EscapeSpec | topiary-playground/build.rs:10-20 | the three passes give the single-scan escaping; reading the result back as a template literal returns the original text; the result has no bare backtick, no bare `${` and no unpaired backslash; the result equals the input exactly when the input has no backslash, backtick or `${` |
| TemplateEscape.ThreePassesAreOnePass | topiary-playground/build.rs:13-19 | backslash doubling, then backtick escaping, then `${` escaping equals one left-to-right scan that escapes each reserved sequence once |
| TemplateEscape.OnePassRoundTrip | topiary-playground/build.rs:13-19 | decoding `\\`, `` \` `` and `\$` in the escaped text gives back the original text |
| TemplateEscape.OnePassSafe | topiary-playground/build.rs:15-19 | read left to right, with each backslash opening a pair, the escaped text has no bare backtick and no bare `${` |
| TemplateEscape.OnePassGrowth | topiary-playground/build.rs:14-19 | escaping never shortens text; it keeps the length only on text with nothing to escape, and then it returns that text |
| TemplateEscape.OnePassIdentity | topiary-playground/build.rs:14-19 | escaping leaves text unchanged if and only if the text has no backslash, no backtick and no `${` |
| TemplateEscape.SafeBodyEndsAtDelimiter | topiary-playground/build.rs:15-16 | a safe body followed by the closing backtick ends exactly at that backtick, whatever follows |
| TemplateEscape.EscapeBackslashBacktick | topiary-playground/build.rs:13-16 | a backslash followed by a backtick becomes `\\` followed by `` \` `` |
| TemplateEscape.SwappedPassesLeaveBareBacktick | topiary-playground/build.rs:13-14 | if backticks were escaped before backslashes were doubled, the result would not be safe (a bare backtick remains) and would not read back as a template literal |
| AssetScan.Collect | topiary-playground/build.rs:30-67 | a scan succeeds exactly when every kept file can be read; otherwise it aborts on the first kept file that cannot be read |
| AssetScan.Scan | topiary-playground/build.rs:28-67 | the loop over `read_dir` aborts on an unlistable directory and otherwise computes the fold `Collect` |
| AssetScan.CollectAbortSticks | topiary-playground/build.rs:11-12 | once a prefix of the listing aborts, the whole scan aborts with the same failure |
| AssetScan.CollectKeys | topiary-playground/build.rs:33-41 | the keys of a scan are exactly the stems of the kept entries |
| AssetScan.CollectLastWriteWins | topiary-playground/build.rs:38-41 | each key holds the escaped text of the last kept entry with that stem |
| AssetScan.CollectKeySource | topiary-playground/build.rs:38-65 | every key comes from a last kept entry with that stem |
| AssetScan.CollectValuesDecode | topiary-playground/build.rs:40-41 | every value is a safe template body that decodes to the text of the last kept file with that stem |
| AssetScan.Keeps | topiary-playground/build.rs:33-61 | the extension filters of both scans (`scm` for queries, known and not `mli` for inputs); what they keep is stated by AssetScan.QueryScanKeys and AssetScan.InputScanKeys |
| AssetScan.QueryScanKeys | topiary-playground/build.rs:33-36 | the query scan keeps exactly the files whose extension is `scm`; files without an extension are skipped |
| AssetScan.InputScanKeys | topiary-playground/build.rs:53-61 | the input scan keeps exactly the files whose extension is known and is not `mli`; files without an extension are skipped |
| AssetScan.InterfaceVariantSkipped | topiary-playground/build.rs:57-60 | given `ocaml.ml` and `ocaml.mli` in either order, only the `ml` text is kept under `ocaml` |
| AssetScan.CollectOrderIndependent | topiary-playground/build.rs:31-43 | if kept entries that share a stem are the same entry, two listings with the same entries give the same map, and one succeeds exactly when the other does |
| AssetScan.AbortReportDependsOnOrder | topiary-playground/build.rs:31-43 | with two unreadable `scm` files, the failure reported is that of whichever file is enumerated first |
| AssetScan.QueryScanOrderIndependent | topiary-playground/build.rs:33-41 | if no two files have the same name, one enumeration order succeeds exactly when the other does, and then both give the same map |
| KeyOrder.Below | topiary-playground/build.rs:71 | Rust's `Ord` for `String`, lexicographic on characters; KeyOrder.BelowIrreflexive, BelowAsymmetric, BelowTransitive and BelowTotal show it is a strict total order |
| KeyOrder.BelowIrreflexive | topiary-playground/build.rs:71 | no name sorts before itself |
| KeyOrder.BelowAsymmetric | topiary-playground/build.rs:71 | two names never sort before each other |
| KeyOrder.BelowTransitive | topiary-playground/build.rs:71 | the `String` order is transitive |
| KeyOrder.BelowTotal | topiary-playground/build.rs:71 | any two distinct names are ordered one way or the other |
| KeyOrder.Insert | topiary-playground/build.rs:71 | inserting a name into a strictly ascending sequence keeps it strictly ascending, and adds exactly that name |
| KeyOrder.SortKeys | topiary-playground/build.rs:71 | the keys, taken in any order, are returned strictly ascending, each key exactly once |
| KeyOrder.AscendingUnique | topiary-playground/build.rs:71 | two strictly ascending sequences with the same names are equal |
| Bundle.JoinSorted | topiary-playground/build.rs:71-84 | the records are exactly the listed names that have a sample input; each carries `is_supported`, the query text and the input text of its name; they ascend when the names do |
| Bundle.Join | topiary-playground/build.rs:69-84 | the records are the inner join of the two maps on the name, strictly ascending by name, with the support flag and both texts |
| Bundle.BundleUnique | topiary-playground/build.rs:71-83 | the records depend only on the two maps and the support lookup, so map iteration order cannot show in the output |
| Bundle.JoinDropsQueryOnlyKeys | topiary-playground/build.rs:71-72 | with queries `a` and `b` and an input for `a` only, the only record is `a`'s |
| Bundle.JoinSortsKeys | topiary-playground/build.rs:71 | names `z`, `a` and `m` present in both maps come out as `a`, `m`, `z` |
| Render.ConcatAppend | topiary-playground/build.rs:69-84 | rendering two lists of records one after the other renders their concatenation |
| Render.ConcatAt | topiary-playground/build.rs:75-82 | in the buffer, each record sits right after the records before it |
| Render.Record | topiary-playground/build.rs:75-82 | the `format!` record of one entry; Render.RecordLiteralsDelimited states that its two literals hold exactly the query and input text |
| Render.ModuleText | topiary-playground/build.rs:89-98 | the `write!` module: header, records, footer; Render.ModuleRecordAt states where each record sits |
| Render.RecordOffsetStep | topiary-playground/build.rs:75-82 | each record takes up exactly the buffer between its offset and the next record's offset |
| Render.ModuleRecordAt | topiary-playground/build.rs:89-98 | the module is the header, then each record at its offset in entry order, then the footer |
| Render.RecordOffsetsAscend | topiary-playground/build.rs:71-84 | a later entry's record starts after an earlier entry's record |
| Render.RecordLiteralsDelimited | topiary-playground/build.rs:76-81 | in a record, the query and input template literals hold exactly the query and input text and close right after it |
| BuildScript.Generate | topiary-playground/build.rs:22-101 | the query directory is scanned first and its failure wins; the run succeeds exactly when both scans do; the records are the sorted inner join of the two scans; the text is the module rendered from them |
| BuildScript.BundleTextsDecode | topiary-playground/build.rs:71-83 | each record's query and input literals are safe and decode to the text of the last kept file of that name in each directory |

## Left out

- File system I/O (`fs::read_dir`, `fs::read_to_string`, `fs::File::create`, `write!`, build.rs:11, 28, 48, 88-100). Listings and file contents are values. A listing entry already carries its stem, its extension and its text, or `None` for text that cannot be read.
- Errors while iterating a listing (`path.unwrap()`, build.rs:32, 52). A listing is either unlistable or a complete sequence of entries.
- A failure to create or write the output file (build.rs:88-100). No output is produced by the model, so there is nothing to fail.
- `current_dir()` and `OUT_DIR` path building (build.rs:27, 45-47, 86-87). These are environment plumbing.
- The `cargo:rerun-if-changed` lines (build.rs:23-24). These are build-system hooks.
- `Configuration::parse_default_configuration().known_extensions()` (build.rs:54-56) is the `known` set parameter. The source parses the configuration again for every entry. The model assumes the same set each time.
- `SupportedLanguage::is_supported` (build.rs:73) is the `isSupported` parameter.
- `Path::file_stem`, `Path::extension` and `to_string_lossy` (build.rs:33, 38, 53, 63). The model does not split file names (dot files, several dots) and does not do lossy UTF-8 conversion; the listing supplies stem and extension as strings.
- TemplateEscape.Replace: requires a non-empty pattern. The script only ever passes non-empty patterns, so Rust's behaviour on an empty pattern is not modelled.
- TemplateEscape.Unescape: decodes only the three escapes the script emits. It does not apply the template-value normalisation of carriage returns (CR and CR LF become LF, section 11.8.6.1 of ECMA-262). So the round trip is stated for this decoder, and text containing CR does not survive a real JavaScript engine unchanged.
- Render.Record: the name is placed between double quotes without escaping, as the script does. Nothing is proved about names that contain `"` or `\`. The `supported` field is rendered as the template string `true` or `false`, as the script does, not as a boolean.
- AssetScan.QueryScanOrderIndependent: on abort, which `scm` file is reported depends on the enumeration order, even when all file names are distinct (AssetScan.AbortReportDependsOnOrder); only success and the resulting map are order independent.
- AssetScan.CollectOrderIndependent: on abort, which file is reported depends on the enumeration order (AssetScan.AbortReportDependsOnOrder), so only success, not the failure, is order independent. Order independence of the map is proved only when kept entries that share a stem are one entry. Otherwise the input scan depends on enumeration order, and last-write-wins (AssetScan.CollectLastWriteWins) is what the model states.
- The internals of `HashMap` iteration and of `itertools::sorted`. `KeyOrder.SortKeys` takes the keys in an arbitrary order and inserts them one at a time. Only the result is specified.
