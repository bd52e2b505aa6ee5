# Traveling Santa 2018 tour scoring, its data generator, and the PNG unembedder

This project models three small programs from a collection of solutions and
utilities, and proves properties of the models:

- **`santa` extension (Noel_Baba_2018/pysanta.c)**. `toplam_mesafe` scores a
  tour of city ids for the Kaggle Traveling Santa 2018 problem. Each leg costs
  its Euclidean length (`mesafe`). Every 10th leg costs 10% more unless it
  departs from a prime city. Prime membership is a libc `bsearch` over the
  sorted table `asalsehirler` of size `n_asal`, ordered by `compareints`.
  Module `Santa` (santa.dfy) models these:
  - `BSearch` is a method with loop invariants.
  - `TotalDistance` is the scoring loop. It is proved equal to the recursive
    specification `TourCost`.
  - Lemmas about `TourCost`: its split into length plus penalty, bounds, and
    the cases in which it has no penalty.
  - The comparator's 32-bit behaviour.
- **data.c generator (Noel_Baba_2018/santa2c.py)**. It writes three C array
  definitions, one per line: the prime city ids, then the x and the y
  coordinates of every city. Module `DataC` (data_c.dfy) models the writes as
  methods that append to a growing string. It proves that the output is the
  three-line text `DataFile`, and that each line parses back to what was
  written. It also proves that a correct prime list is a valid `bsearch`
  table for the extension.
- **PNG unembedder (utils/unembedpng.py)**. It splits a file name into stem
  and extension and refuses anything that is not `html`. It then rewrites
  every `img` whose `src` embeds a base64 PNG, pointing it at a new file
  `<stem>_image<k>.png`. Module `UnembedPng` (unembed_png.dfy) models the
  `img` tags as an array of `src` attributes that the loop overwrites in
  place. It names the two ways the loop can fail: a tag without `src` is a
  `KeyError`, and an embedded `src` without a comma is an `IndexError`.

Module `Text` (text.dfy) holds the Python string operations the scripts use:
`str.split`, `str.join`, `str(int)`, the substring test and
`str.replace(c, "")`. Split and join are proved inverse to each other, and
`str(int)` is proved inverse to reading the digits back. The deletion is fixed
completely by its contract together with the lemma `RemoveAppend`. The
substring test is Python's `in` written out as a definition; no lemma is
proved about it. Module `Wrappers` (wrappers.dfy) holds `Option`.

The code has a few notable edges:
- For an empty tour, the C code reads item 0 of an empty list, and the call ends in a SystemError.
- In `compareints`, the difference of C ints overflows.
- `santa2c.py` with no city rows fails at `cities[0,0]` after the prime line has been written.
- `unembedpng.py` accepts a file called just `html`.

The empty tour is excluded by the precondition of `TotalDistance`; see
"Left out". The model states each of the others explicitly. The overflow is the lemma
`CompareIntsOverflows`. The missing rows are the `ok` result of the method
`WriteDataC`. The bare `html` name is the lemma `BareHtmlNameAccepted`.

## Model

| member | source | states |
|---|---|---|
| Santa.SquaredDistance | Noel_Baba_2018/pysanta.c:15-18 | the quantity under the square root, dx*dx+dy*dy, is never negative |
| Santa.Mesafe | Noel_Baba_2018/pysanta.c:13-19 | for a true square root, the result is non-negative and its square is dx*dx+dy*dy; `MesafeIsDistance` adds symmetry and zero self-distance |
| Santa.MesafeIsDistance | Noel_Baba_2018/pysanta.c:13-19 | `mesafe` is a distance: it is non-negative, its square is the squared coordinate difference, it is symmetric, and a city is at distance 0 from itself |
| Santa.Wrap32 | Noel_Baba_2018/pysanta.c:23 | the wrapped difference is always a 32-bit int, differs from the exact difference by a multiple of 2^32 (two's complement), and equals it when it fits |
| Santa.CompareInts | Noel_Baba_2018/pysanta.c:21-24 | `compareints` returns a 32-bit int, and returns exactly `*a - *b` when the difference does not overflow |
| Santa.CompareIntsOrders | Noel_Baba_2018/pysanta.c:21-24 | without overflow, the sign of `compareints` is negative, zero or positive exactly when a<b, a==b or a>b |
| Santa.CompareIdsOrders | Noel_Baba_2018/pysanta.c:21-24 | for non-negative ints (city ids), `compareints` always orders correctly |
| Santa.CompareIntsOverflows | Noel_Baba_2018/pysanta.c:23 | the comparator misorders outside that range: INT_MIN compares as greater than 1 |
| Santa.BSearch | Noel_Baba_2018/pysanta.c:48-49 | on an ascending table of ids, the search returns an index holding the key, and returns NULL exactly when the key is absent from the first n entries |
| Santa.TotalDistance | Noel_Baba_2018/pysanta.c:26-57 | the loop's total equals `TourCost`: the sum over legs 1..len-1 of the leg length, times 1.1 when the step is a multiple of 10 and the departure city is not found among the first 17802 table entries |
| Santa.LegCost | Noel_Baba_2018/pysanta.c:45-51 | a leg costs between its length and 1.1 times its length; `PenaltyRule` and `OffStepsUnpenalised` say exactly when it is penalised |
| Santa.OffStepsUnpenalised | Noel_Baba_2018/pysanta.c:47 | a leg whose step is not a multiple of 10 costs exactly its length |
| Santa.PenaltyRule | Noel_Baba_2018/pysanta.c:47-51 | a positive-length leg costs more than its length if and only if its step is a multiple of 10 and it departs from a non-prime; it then costs 1.1 times its length |
| Santa.PenaltyIgnoresArrival | Noel_Baba_2018/pysanta.c:47-49 | the penalty depends only on whether the departure city (`onceki`) is prime, not on the arrival city |
| Santa.OneCityTour | Noel_Baba_2018/pysanta.c:39-41 | a tour of one city has total 0 |
| Santa.CostSplits | Noel_Baba_2018/pysanta.c:45-54 | the total after k cities is the plain path length plus the accumulated penalties |
| Santa.PenaltyBounds | Noel_Baba_2018/pysanta.c:50-51 | the accumulated penalty is between 0 and a tenth of the path length |
| Santa.CostBounds | Noel_Baba_2018/pysanta.c:41-56 | a tour's score lies between its path length and 1.1 times its path length |
| Santa.ShortTourUnpenalised | Noel_Baba_2018/pysanta.c:41-47 | a tour of at most 10 cities costs exactly its path length |
| Santa.PrimeDeparturesUnpenalised | Noel_Baba_2018/pysanta.c:47-51 | when every 10th leg departs from a prime, the score is the plain path length |
| Text.Split | utils/unembedpng.py:16 | `str.split(sep)` yields at least one field and no field contains the separator |
| Text.Join | utils/unembedpng.py:17 | `sep.join(parts)` begins with the first part; `JoinSplit`, `SplitJoin` and `JoinSnoc` carry its meaning |
| Text.JoinSplit | utils/unembedpng.py:16-17 | joining the fields of a split with the same separator restores the string |
| Text.SplitJoin | Noel_Baba_2018/santa2c.py:13-22 | splitting a join of separator-free fields restores the fields |
| Text.SplitNoSep | utils/unembedpng.py:16 | a string without the separator splits into itself alone |
| Text.SplitCons | utils/unembedpng.py:30 | splitting at the first separator yields the text before it followed by the split of the rest |
| Text.JoinSnoc | utils/unembedpng.py:17 | joining one more field appends the separator and that field |
| Text.Decimal | Noel_Baba_2018/santa2c.py:15 | `str(p)`: a non-empty string of decimal digits, with no leading zero unless the number is 0 |
| Text.ParseDecimalOfDecimal | Noel_Baba_2018/santa2c.py:15 | reading the decimal text back gives the number |
| Text.DecimalInjective | utils/unembedpng.py:32-34 | different counters give different decimal texts |
| Text.Remove | utils/unembedpng.py:30 | `replace("\n", "")` leaves no newline, keeps every other character with its multiplicity, never lengthens the text, and leaves a text without newlines unchanged |
| Text.RemoveAppend | utils/unembedpng.py:30 | deleting from a concatenation deletes from each piece, so the kept characters keep their order; with the contract of `Remove` this determines its result |
| Text.RemoveCons | utils/unembedpng.py:30 | deleting from a text drops its first character exactly when that is the deleted one and keeps it in front otherwise |
| UnembedPng.FileExt | utils/unembedpng.py:16 | the extension is the text after the last dot and contains no dot |
| UnembedPng.FileStem | utils/unembedpng.py:17 | the stem is a prefix of the file name; `FileNameParts` says which prefix |
| UnembedPng.FileNameParts | utils/unembedpng.py:16-17 | with a dot in the name, stem + "." + extension is the name; without one, the extension is the whole name and the stem is empty |
| UnembedPng.BareHtmlNameAccepted | utils/unembedpng.py:16-20 | the name `html` passes the extension test with an empty stem, so its first image is `_image0.png` |
| UnembedPng.IsEmbeddedPng | utils/unembedpng.py:29 | a `src` counts as embedded only if it is at least as long as `data:image/png;base64`, and every `src` starting with that text counts |
| UnembedPng.Payload | utils/unembedpng.py:30 | a payload has neither newlines nor commas; `PayloadExists` and `PayloadIsSecondField` say when it exists and which text it is |
| UnembedPng.PayloadExists | utils/unembedpng.py:30 | `src.split(",")[1]` exists exactly when `src` contains a comma |
| UnembedPng.PayloadIsSecondField | utils/unembedpng.py:30 | the payload is the text between the first and second comma with newlines removed |
| UnembedPng.ImageName | utils/unembedpng.py:32-34 | the name starts with the stem and is ten characters longer than the stem and the counter together; `ImageNameInjective` shows that the counter determines it |
| UnembedPng.ImageNameInjective | utils/unembedpng.py:32-34 | `'{}_image{}.png'.format(stem, i)` gives different names for different counters |
| UnembedPng.Visit | utils/unembedpng.py:28-35 | one iteration keeps one `src` entry per tag |
| UnembedPng.Loop | utils/unembedpng.py:27-35 | the loop keeps one `src` per tag |
| UnembedPng.FaultSticks | utils/unembedpng.py:28-30 | once a tag raises, later tags are not visited: the state stays as it was at the exception |
| UnembedPng.RewriteImages | utils/unembedpng.py:27-35 | the in-place loop leaves the tags, the files written and the exception exactly as the specification `Unembed` gives them, and its counter `i` is the number of files written |
| UnembedPng.WritesOf | utils/unembedpng.py:32-33 | one PNG write per extracted file, in order |
| UnembedPng.Run | utils/unembedpng.py:15-38 | a non-`html` name does nothing. Otherwise the script reads the HTML, writes the PNGs in order, rewrites the tags, and writes the HTML back only when no exception was raised |
| UnembedPng.FirstBad | utils/unembedpng.py:28-30 | the index of the first tag that raises: every earlier tag is harmless, and the tag found does raise |
| UnembedPng.LoopClean | utils/unembedpng.py:27-35 | after j tags: no exception if and only if none of them raises; then one file per embedded tag; untouched tags keep their `src` |
| UnembedPng.UnembedOutcome | utils/unembedpng.py:27-35 | the whole run fails if and only if some tag raises. It then stops at the first such tag with the right error: KeyError for a missing `src`, IndexError for no comma. The files are those of the embedded tags before that point |
| UnembedPng.LoopTag | utils/unembedpng.py:29-35 | a non-embedded tag keeps its `src`. The m-th embedded tag's file is `<stem>_image<m>.png`, holds that tag's payload, and the tag's `src` becomes that name |
| UnembedPng.LoopNames | utils/unembedpng.py:32-35 | the k-th file written is named `<stem>_image<k>.png` |
| UnembedPng.UnembedNamesDistinct | utils/unembedpng.py:32-35 | no two files written have the same name, so none overwrites another |
| DataC.PrimeBodySnoc | Noel_Baba_2018/santa2c.py:14-15 | writing one more `str(p)+","` extends the prime list text by that number and a comma |
| DataC.WritePrimes | Noel_Baba_2018/santa2c.py:13-16 | the prime section appends exactly the header, every prime followed by a comma, and `};` plus a newline |
| DataC.WriteColumn | Noel_Baba_2018/santa2c.py:19-22 | a coordinate section appends the header, the values separated by commas, and `};` plus a newline |
| DataC.WriteDataC | Noel_Baba_2018/santa2c.py:11-28 | with at least one city, data.c is exactly the three lines of `DataFile`. With none, only the prime line is written before `cities[0,0]` fails |
| DataC.PrimeLineRoundTrip | Noel_Baba_2018/santa2c.py:13-16 | the prime line parses back to exactly the primes written |
| DataC.PrimeLineTrailingComma | Noel_Baba_2018/santa2c.py:15-16 | with at least one prime, the line ends `,};`, which C accepts as a trailing comma |
| DataC.CoordLineFields | Noel_Baba_2018/santa2c.py:19-22 | when rendered numbers contain no comma or newline, the array body splits at commas into exactly the rendered coordinates |
| DataC.JoinAvoids | Noel_Baba_2018/santa2c.py:19-22 | joining fields that avoid a character yields text that avoids it |
| DataC.DataFileLines | Noel_Baba_2018/santa2c.py:11-28 | data.c splits at newlines into the prime line, the x line, the y line and nothing after the last newline |
| DataC.PrimeTableSearchable | Noel_Baba_2018/santa2c.py:9 | the primes below 197769 in increasing order form a valid `bsearch` table: ascending non-negative ints. A city id below 197769 is in it if and only if it is prime |

## Left out

- Python C-API plumbing is not modelled: `PyArg_ParseTuple`, `PyList_Size`, `PyList_GetItem`, `PyLong_AsLong`, their error returns, and the module table and `PyInit_santa`. The tour is a sequence of ints.
- Santa.TotalDistance: requires a non-empty tour. For an empty list, `PyList_GetItem` returns NULL with an IndexError set, and `PyLong_AsLong(NULL)` returns -1. The loop is then skipped, and CPython turns the value returned with an error still set into a SystemError. The model has no exception results for the extension, so this case is excluded instead of modelled.
- Santa.TotalDistance: requires valid ids no larger than INT_MAX. An out-of-range id makes the C code read outside `x`/`y`, which C leaves undefined.
- Santa.TotalDistance: doubles, `sqrt` and the multiplication by 1.1 are exact reals, so rounding is not modelled. The square root is a parameter assumed to satisfy `IsSqrt`. `IsSqrt` states root(0)=0 explicitly, although that follows from the square.
- Santa.TotalDistance: the total comes back to Python as a float holding the double `toplam` (`Py_BuildValue("f", ...)` takes a double). The model returns that total as a real.
- Santa.BSearch: models `bsearch` as a halving search. It promises what the C standard promises (some matching element, or NULL), not which of several equal entries glibc returns.
- Santa.BSearch: the key is the `long` `onceki`, which `compareints` reads through an `int*`. The model takes the key's value as an int, which is what a little-endian machine reads for ids below 2^31.
- Santa.CompareInts: C leaves a signed overflow undefined. The model gives it two's-complement wrap-around, the common machine behaviour.
- The `extern` tables are inputs: `x`, `y` and `asalsehirler` are passed in.
- DataC.PrimeTableSearchable: does not prove `|ps| == NAsal`, that is, that the generator writes exactly `n_asal` = 17802 primes (the number of primes below 197769). So `Santa.TotalDistance`'s requirement `NAsal <= asalsehirler.Length` is an assumption about the generated table, not a proved fact.
- The table is `unsigned int` in C and `int` here. Every entry the generator writes is below 2^31, so the values agree.
- Command-line handling is not modelled: `sys.argv`, the message printed for a non-html name, and `sys.exit`. A refused name gives an empty effect list.
- UnembedPng: BeautifulSoup parsing and serialisation are not modelled. The document is the `src` attributes of its `img` tags in document order, and writing the HTML back is one `WriteHtml` effect.
- UnembedPng: `a2b_base64` and its `binascii.Error` on malformed base64 are not modelled. A PNG file is recorded with the base64 text it would be decoded from.
- UnembedPng: the contents of the files read and written are not modelled. File operations are recorded as an effect list, and the overwritten HTML is the final tag array.
- DataC: `numpy.loadtxt` of data/cities.csv and `sympy.sieve.primerange` are not modelled. The city rows and the prime ids are inputs. `PrimeTableSearchable` states what a correct prime list gives.
- DataC.WriteDataC: the model's `cities` are the rows of a two-dimensional array. `np.loadtxt` with its default `ndmin=0` squeezes a file with exactly one city row to a one-dimensional array, and then `cities[0,0]` also raises IndexError. That case is outside the model, where one row gives a complete data.c.
- DataC: Python's `str` of a numpy float is the parameter `fmt`. `CoordLineFields` and `DataFileLines` assume only that its output contains no comma or newline.
- The build script (setup.py) and the tour-search scripts that call `toplam_mesafe` are not part of this model.
