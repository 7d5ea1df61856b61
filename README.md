# Domains: the bookkeeping of the lipid-domain analysis plugin

Domains is an ImageJ plugin. It opens a Leica file and averages each image
stack. It then segments the domains, measures them with ImageJ's particle
analyser, and writes the outputs under a `processed/` directory next to the
source file:

- the images, as `stem-stack.tif`, `stem-threshold.tif`, `stem-mask.tif` and `stem-outlines.tif`;
- one table, `stem-dat.csv`.

This project models the part of `Domains.java` that decides names and
table contents:

- how the comma-separated `experiment` setting becomes column names (`ColumnNames`);
- how an image title becomes an output file name and a path (`FileName`, `SaveImage`, `OpenStackImage`, the `.csv` path);
- how the title and the source file name give the experiment metadata (`ExperimentName`);
- how the results table is filled:
  - the metadata is broadcast to every row;
  - each outline's intensity statistics go into the row of the same index;
- the fields `run` sets up, and the title copy of the aberration correction.

The modules:

- `JavaLang`: the `java.lang.String` operations the code relies on, each written out as a recursive function with its own laws. They are `replaceAll("\\s+","")`, `trim()`, `split` on a one-character class, and `replace(target, "")`. Java exceptions are values of `Fault`.
- `Naming`: column names, file names, paths and experiment tokens.
- `Results`: the ImageJ results table as a class with a cell map and a row counter, and the two loops that fill it.
- `Plugin`: the `Domains` object (its fields, `run`'s set-up, `setExperiment`), `RemoveAbberation`'s title copy, and `DomainAnalysis` as a sequence of those steps. Each step can end the analysis with the exception the Java code would throw.

Two consequences of the code are worth stating plainly:

- **Which text becomes metadata.** A title such as "2021-04-cellA_di8_50pct" yields the single metadata token "04", not "cellA" and "di8": the code reads only the text between the first two hyphens (`Naming.ExampleTitleTokens`).
- **Token-count mismatch.** A mismatch between the number of tokens and the number of columns is not an error. It is only logged (lines 390-392). Too many tokens make the broadcast loop throw an index exception instead, and only when the table has at least one row.

## Model

| member | source | states |
|---|---|---|
| JavaLang.StripSpaces | src/main/java/ibios/domains/Domains.java:329 | the result has no whitespace, contains exactly the non-whitespace characters that occur in the input, and is no longer than it |
| JavaLang.StripSpacesConcat | src/main/java/ibios/domains/Domains.java:329 | stripping works piecewise over concatenation, so the kept characters stay in order, none dropped or repeated |
| JavaLang.StripSpacesNoop | src/main/java/ibios/domains/Domains.java:329 | stripping a whitespace-free string changes nothing, so stripping is idempotent |
| JavaLang.Trim | src/main/java/ibios/domains/Domains.java:350 | the result is the infix of the input left after removing a prefix and a suffix made only of characters up to U+0020, and it neither starts nor ends with such a character |
| JavaLang.TrimNoop | src/main/java/ibios/domains/Domains.java:350 | a string with nothing to trim at either end is its own trim |
| JavaLang.Split | src/main/java/ibios/domains/Domains.java:331 | no piece contains the delimiter, and every character of a piece comes from the input |
| JavaLang.SplitTrailing | src/main/java/ibios/domains/Domains.java:331 | trailing delimiters are dropped: pieces with a non-empty last piece, joined and followed by any number k >= 1 of delimiters, split back to exactly those pieces ("a,b," gives ["a","b"]) |
| JavaLang.SplitOnlyDelimiters | src/main/java/ibios/domains/Domains.java:331 | a string made only of delimiters splits to no pieces at all (",," gives []) |
| JavaLang.SplitJoin | src/main/java/ibios/domains/Domains.java:331 | splitting delimiter-free pieces joined by the delimiter gives back exactly those pieces, unless the last piece is empty (split drops trailing empty pieces) |
| JavaLang.SplitHasSecondToken | src/main/java/ibios/domains/Domains.java:347-348 | `tokens[1]` exists if and only if some delimiter is followed, somewhere later, by a non-delimiter |
| JavaLang.SplitSecondToken | src/main/java/ibios/domains/Domains.java:347-348 | in "a" + d + "b" + tail, with no delimiter in a or b and tail empty or starting with d, the second token is b, including an empty b ("a--b") whenever a non-delimiter follows |
| JavaLang.RemoveAll | src/main/java/ibios/domains/Domains.java:381 | `replace(t, "")` never lengthens the string and introduces no character |
| JavaLang.RemoveAllAbsent | src/main/java/ibios/domains/Domains.java:381 | with no occurrence of the target, the string is unchanged |
| JavaLang.RemoveAllFirst | src/main/java/ibios/domains/Domains.java:381 | the first occurrence of the target, wherever it stands, is deleted; the text before it is kept and the scan continues after it |
| Naming.ColumnNames | src/main/java/ibios/domains/Domains.java:327-341 | no column name contains whitespace or a comma |
| Naming.SingleColumn | src/main/java/ibios/domains/Domains.java:329-331 | a setting without whitespace or commas is exactly one column of that name |
| Naming.DefaultColumnNames | src/main/java/ibios/domains/Domains.java:327-331 | the default setting "experiment" (line 81) gives exactly one column, "experiment" |
| Naming.ColumnNamesRoundTrip | src/main/java/ibios/domains/Domains.java:327-331 | names free of whitespace and commas, joined with commas, parse back to exactly those names in order |
| Naming.ColumnNamesWithSpaces | src/main/java/ibios/domains/Domains.java:329-331 | a setting that is the comma-joined names once whitespace is removed, wherever it stood, parses to exactly those names |
| Naming.ColumnNamesIgnoreSpaces | src/main/java/ibios/domains/Domains.java:329 | parsing gives the same names whether or not whitespace was removed first |
| Naming.SecondToken | src/main/java/ibios/domains/Domains.java:345-348 | succeeds if and only if the whitespace-free title has a second hyphen token, and otherwise fails with the index exception; the token has no hyphen and no whitespace |
| Naming.SecondTokenOf | src/main/java/ibios/domains/Domains.java:345-348 | the second token is the text between the first and second hyphen of the whitespace-free title, empty when they are adjacent and a non-hyphen follows |
| Naming.FileName | src/main/java/ibios/domains/Domains.java:343-360 | succeeds exactly when the title has a second hyphen token, and otherwise fails with the index exception; the name ends with "-" + suffix, has no hyphen before that, and has no whitespace when the suffix has none |
| Naming.FileNameOf | src/main/java/ibios/domains/Domains.java:345-350 | the name is the trimmed second token + "-" + suffix, and exactly token + "-" + suffix when the token has nothing to trim; an empty token ("a--b") gives "-" + suffix |
| Naming.ImagePath | src/main/java/ibios/domains/Domains.java:318-320 | an image path exists exactly when the title has a second hyphen token |
| Naming.TablePath | src/main/java/ibios/domains/Domains.java:283-284 | the table path exists exactly when the outline title has a second hyphen token |
| Naming.ImagePathOf | src/main/java/ibios/domains/Domains.java:311-313 | the image path is dir + "processed/" + trimmed second token + "-" + suffix + ".tif" |
| Naming.SamePathIffSameStem | src/main/java/ibios/domains/Domains.java:311-320 | `OpenStackImage` reopens the path `SaveImage` wrote for a suffix if and only if the two titles have the same trimmed second token |
| Naming.DistinctSuffixesDistinctPaths | src/main/java/ibios/domains/Domains.java:318-320 | images saved under different hyphen-free suffixes never share a path, whatever their titles |
| Naming.TableIsNotImage | src/main/java/ibios/domains/Domains.java:283-284 | the `.csv` table path never equals an image path |
| Naming.RemovalStringEmpty | src/main/java/ibios/domains/Domains.java:374-379 | the removal string is empty if and only if the file name has no second underscore token |
| Naming.RemovalStringOf | src/main/java/ibios/domains/Domains.java:374-379 | for a name "a_rest" (no underscore in a, rest not ending in one) the removal string is rest + "_" |
| Naming.ExperimentTokens | src/main/java/ibios/domains/Domains.java:364-399 | succeeds exactly when the title has a second hyphen token (otherwise the index exception); no token contains a hyphen, an underscore or whitespace |
| Naming.ExperimentName | src/main/java/ibios/domains/Domains.java:364-399 | the accumulating loop returns the tokens `ExperimentTokens` specifies, and reports a mismatch exactly when their count differs from the column count |
| Naming.ExperimentTokensPlainName | src/main/java/ibios/domains/Domains.java:374-384 | with no second underscore token in the file name, the second hyphen token is split on underscores unchanged |
| Naming.ExperimentTokensOf | src/main/java/ibios/domains/Domains.java:374-384 | a token of the form removal string + values joined by "_" gives back exactly those values, provided the removal string does not recur |
| Naming.ExampleTitleSecondToken | src/main/java/ibios/domains/Domains.java:366-369 | the second hyphen token of "2021-04-cellA_di8_50pct" is "04" |
| Naming.ExampleTitleTokens | src/main/java/ibios/domains/Domains.java:366-384 | with an underscore-free file name, "2021-04-cellA_di8_50pct" yields the single metadata token "04" |
| Results.ResultsTable.constructor | src/main/java/ibios/domains/Domains.java:249 | a new table has no rows and no cells |
| Results.ResultsTable.SetValue | src/main/java/ibios/domains/Domains.java:279 | sets exactly one cell; writing the row one past the end appends a row; every cell stays inside the rows |
| Results.ColumnValueIsLastWrite | src/main/java/ibios/domains/Domains.java:276-281 | a column holds a metadata value if and only if it is among the names written, and the value is the one written last under that name (a repeated name is overwritten) |
| Results.DistinctColumnsHoldTheirValue | src/main/java/ibios/domains/Domains.java:276-281 | with distinct column names, column `colnames[j]` holds `values[j]` |
| Results.BroadcastMetadata | src/main/java/ibios/domains/Domains.java:276-281 | the row count never changes; the index exception happens if and only if there is a row and more tokens than names; without it, every row holds the metadata and every other cell is unchanged; with it, only row 0's first cells were written |
| Results.BroadcastRow | src/main/java/ibios/domains/Domains.java:278-280 | the inner loop over one row: the row count never changes; it faults if and only if there are more tokens than names, after the row received the first |colnames| values; otherwise the row holds every value in its column and the other rows are as they were |
| Results.MetadataInEveryRow | src/main/java/ibios/domains/Domains.java:276-281 | after the broadcast, with distinct names, every row k holds `values[j]` under `colnames[j]`, and every cell outside those rows and columns is unchanged |
| Results.FillRoiStats | src/main/java/ibios/domains/Domains.java:288-299 | row i receives the mean, min and max of outline i; the table grows to the number of outlines when it had fewer rows; no other cell changes |
| Results.RoiRowWritten | src/main/java/ibios/domains/Domains.java:296-298 | the three writes of one iteration extend the filled rows by exactly row i |
| Results.RoiStatsInTheirRows | src/main/java/ibios/domains/Domains.java:288-299 | row i holds outline i's statistics for every i, in outline order, and no cell outside the three ROI columns and those rows changed |
| Results.MetadataSurvivesRoiStats | src/main/java/ibios/domains/Domains.java:276-299 | when no metadata column is named like a ROI column, the saved table carries all the metadata in every original row and each outline's statistics in its row |
| Plugin.RemoveAbberation | src/main/java/ibios/domains/Domains.java:224-232 | the corrected image has the summed pixels and the input's title, so every image and table path derived from it is unchanged |
| Plugin.Domains.constructor | src/main/java/ibios/domains/Domains.java:78-81 | the experiment setting starts as "experiment" |
| Plugin.Domains.SetExperiment | src/main/java/ibios/domains/Domains.java:99-101 | replaces the experiment setting |
| Plugin.Domains.Open | src/main/java/ibios/domains/Domains.java:116-130 | stores the directory, the file name with every ".lif" removed, the parsed column names and their count |
| Plugin.Domains.DomainAnalysis | src/main/java/ibios/domains/Domains.java:266-307 | aborts with the index exception, leaving the table untouched, when the outline title has no second hyphen token; otherwise broadcasts the metadata or aborts in it; then aborts on the stack title or on a missing stack image; otherwise saves the outline image, stack image and table paths, with the ROI statistics written over the broadcast table |

## Left out

- Image input and output are parameters or outcomes here:
  - the Bio-Formats import, the file dialog and `mkdirs`;
  - `FileSaver.saveAsTiff`, `rt.saveAs` and its `IOException`;
  - `IJ.openImage` of the reopened stack and of the fixed correction-mask path.
  - The reopened stack enters `DomainAnalysis` only as its statistics per outline, or as `None` when opening gave null.
- ImageJ's image algorithms are not modelled, because they are foreign code:
  - the Z projection, 8-bit conversion and LUT;
  - the triangle threshold and median filter;
  - the image calculator's sum;
  - the particle analyser (its table and outlines are inputs to `DomainAnalysis`);
  - `getStatistics`, which is the `measure` parameter.
- The area bounds (`min_area / pixelArea`) are floating-point arithmetic fed only to the particle analyser, so they are not modelled. The same goes for the circularity limits and the setters of the area bounds and the option flags.
- `IJ.log` output and the verbose flag are left out. `setVerbose` has an empty body.
- `Domains_.java` is left out. It only shows a dialog and calls the setters.
- The `run` loop over the series of the file, and the `batch` and `id` fields, are left out. They only feed the import and the log.
- `ProcessProjections` catches the null-pointer exception that ends `DomainAnalysis`. An index exception goes uncaught and ends `run`. The model returns both as `Aborted` and does not model the rest of the batch.
- Plugin.Domains.DomainAnalysis: states the paths and cells, not the file contents written there.
- Plugin.Domains.DomainAnalysis: assumes the title of the particle analyser's outline image as a parameter, because the analyser is foreign code.
- Results.ResultsTable.SetValue: ImageJ throws when a row more than one past the end is written. The model requires that this never happens. Both loops write only rows that already exist or the next one.
- Results.ResultsTable.SetValue: the table's column order, its column-count limit and its handling of text written to numeric columns are not modelled.
- Naming.ExperimentName: the loop that calls `trim()` on each token discards the result, so it is modelled as doing nothing.
- Plugin.Domains.constructor: `dir`, `name` and `colnames` are null in Java until `run`; the model starts them empty.
