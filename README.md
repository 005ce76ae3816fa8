# Letter extraction for the pen plotter, modelled in Dafny

The pen plotter draws text from a table of letter outlines compiled into its
firmware. The table comes from a desktop script, `extract_letters_batch.py`,
which:

- finds the SVG element whose id is a letter;
- takes every `<path>` below it and computes that path's world transform, i.e.
  the product of the `transform` attributes from the root down to the path;
- samples the path at roughly uniform arc length;
- maps each sample through the transform;
- splits the sample list wherever two consecutive points are more than `gap`
  apart;
- flips every glyph vertically inside its own bounding box, turning SVG's
  Y-down into the plotter's Y-up;
- writes one Arduino header holding, per letter, a point array with
  `{NAN, NAN}` pen-up separators between polylines, its `_len` constant, and
  the string of letters present.

The model has one module per stage:

| module | file | stage |
|---|---|---|
| `Common` | `common.dfy` | points, `Option`, `Result` and the two error kinds |
| `Affine` | `affine.dfy` | 3x3 matrices: `mat`, `I`, `mul`, `apply`; fold of a matrix list |
| `Transform` | `transform.dfy` | `_parse_transform_attr` over tokenised `name(args)` pairs, `world_transform` |
| `Sampling` | `sampling.dfy` | `sample_path_uniform`: the arc-length schedule and the sampled points |
| `Polyline` | `polyline.dfy` | `split_on_gaps` |
| `Extract` | `extract.dfy` | `extract_letter_polylines`: per-path pipeline and Y flip |
| `Header` | `header.dfy` | `write_header`: flattening with separators, `_len`, totals, sorted letters |

Each loop of the script that builds its result step by step is a `method` with
a `while` or `for` loop. Three pieces are pure functions instead:

- the flip loop of `extract_letter_polylines`, which maps one expression over the
  polylines, is `FlipAll`;
- `min` and `max` over the y values are the recursive `MinOf` and `MaxOf`;
- the final filter of `split_on_gaps` is `KeepLong`.

Each method is proved equal to a specification function, and the properties
are proved as lemmas about that function:

- `ParseTransformAttr` is proved against `ComposeTokens`.
- `WorldTransform` is proved against `WorldSpec`.
- `SamplePathUniform` is proved against `Samples`.
- `SplitOnGaps` is proved against `KeepLong(Runs(..))`.
- `ExtractLetterPolylines` is proved against `Extracted`.
- `LetterRows`, `EmitTables` and `WriteHeader` are proved against `Join`, `Tables` and `SortedKeys`.

Coordinates are exact reals.

Transform names are the six constructors of `Kind`, because the tokenising
regular expression matches only `matrix`, `translate`, `scale`, `rotate`,
`skewX` and `skewY`. The script's final `else: M = I()` branch is therefore
never reached; the identity case that remains is a `matrix` without exactly six
values.

Python exceptions the code does not catch become `Err` results:

- A `translate`, `scale`, `rotate`, `skewX` or `skewY` with no argument fails
  with an `IndexError` on `vals[0]`. This is modelled as `MissingArgument`.
- A positive path length with a zero step fails with a `ZeroDivisionError` in
  `L / step`. This is modelled as `ZeroStep`.

The exception that `path.ilength` may raise is caught by the script, so it is
modelled as `None` and leads to the `i / n` fallback.

Three parts of the environment are parameters:

- the trigonometry of `rotate`, `skewX` and `skewY` is a `Trig` record of
  degree functions;
- the parsed path is a `Path` record holding its length, its inverse
  arc-length function and its point function;
- each matched path element is a `PathNode` holding the token lists of its own
  `transform` attribute and those of its ancestors.

## Model

| member | source | states |
|---|---|---|
| Affine.Mat | code/draw_letters/extract_letters_batch.py:29-33 | the matrix is affine and stores a, c, e in the first row and b, d, f in the second, as the SVG `matrix(a b c d e f)` layout says |
| Affine.Identity | code/draw_letters/extract_letters_batch.py:35-36 | the identity matrix is affine |
| Affine.ApplyMat | code/draw_letters/extract_letters_batch.py:29-43 | `apply(mat(a..f), x, y)` is `(a x + c y + e, b x + d y + f)` |
| Affine.MulIdentity | code/draw_letters/extract_letters_batch.py:35-39 | the identity is a left and right unit of `mul` |
| Affine.Apply | code/draw_letters/extract_letters_batch.py:41-43 | `apply` maps a point by the top two rows; the identity maps every point to itself (ApplyMat gives the map of every `mat`) |
| Affine.Mul | code/draw_letters/extract_letters_batch.py:38-39 | `mul` is the full 3x3 product, and the product of two affine matrices is affine (MulIdentity and ApplyMul give its meaning) |
| Affine.ApplyMulX | code/draw_letters/extract_letters_batch.py:38-43 | with B affine, the x coordinate of `apply(mul(A, B), p)` is that of `apply(A, apply(B, p))` |
| Affine.ApplyMulY | code/draw_letters/extract_letters_batch.py:38-43 | with B affine, the y coordinate of `apply(mul(A, B), p)` is that of `apply(A, apply(B, p))` |
| Affine.ApplyMul | code/draw_letters/extract_letters_batch.py:38-43 | applying `mul(A, B)` is applying B, then A, whenever B is affine |
| Affine.ProductApplies | code/draw_letters/extract_letters_batch.py:51-73 | the fold `T = mul(T, M)` over affine matrices is affine, and applying it applies the last matrix first and the first matrix last |
| Transform.TokenMatrix | code/draw_letters/extract_letters_batch.py:53-72 | one `name(args)` pair fails exactly when a transform other than `matrix` has no argument, the failure is the missing-argument error, and any matrix it yields is affine |
| Transform.MatrixMeaning | code/draw_letters/extract_letters_batch.py:54-55 | `matrix(a b c d e f)` maps (x, y) to (a x + c y + e, b x + d y + f); with any other number of values it is the identity |
| Transform.TranslateMeaning | code/draw_letters/extract_letters_batch.py:56-58 | `translate(tx [ty])` shifts by (tx, ty), with ty = 0 when absent |
| Transform.ScaleMeaning | code/draw_letters/extract_letters_batch.py:59-61 | `scale(sx [sy])` scales x by sx and y by sy, with sy = sx when absent |
| Transform.RotateMeaning | code/draw_letters/extract_letters_batch.py:62-66 | `rotate(a)` rotates about the origin: (cos a x - sin a y, sin a x + cos a y) |
| Transform.SkewMeaning | code/draw_letters/extract_letters_batch.py:67-70 | `skewX(a)` adds tan a times y to x, and `skewY(a)` adds tan a times x to y |
| Transform.ComposeIsProduct | code/draw_letters/extract_letters_batch.py:49-74 | the attribute fails exactly when some pair fails, always with the missing-argument error; otherwise its matrix is the left-to-right product of the pair matrices |
| Transform.ComposeApplies | code/draw_letters/extract_letters_batch.py:47-74 | a parsed attribute is affine, and applying it applies the pairs from the rightmost to the leftmost |
| Transform.ParseTransformAttr | code/draw_letters/extract_letters_batch.py:47-74 | the loop computes `ComposeTokens`; it fails iff some pair lacks its argument; an absent or empty attribute gives the identity |
| Transform.ParseChain | code/draw_letters/extract_letters_batch.py:78-82 | the chain fails iff some attribute on the way to the root fails; otherwise it has one matrix per element, each being that element's parsed attribute |
| Transform.WorldApplies | code/draw_letters/extract_letters_batch.py:83-86 | the accumulated world matrix is affine and applies the element's own transform first, then each ancestor's in turn up to the root |
| Transform.WorldIsRootFirst | code/draw_letters/extract_letters_batch.py:83-86 | the loop over `reversed(chain)` equals the left-to-right product of the root-first chain |
| Transform.WorldTransform | code/draw_letters/extract_letters_batch.py:76-86 | both loops compute `WorldSpec`, which fails iff some attribute on the element or an ancestor has a pair that lacks its argument |
| Sampling.Ceil | code/draw_letters/extract_letters_batch.py:95 | `math.ceil`: the least integer not below x |
| Sampling.Segments | code/draw_letters/extract_letters_batch.py:95 | `n` is at least 1 and at least L/step; when L/step is positive, n - 1 is below L/step; and when L/step is at most 1 (a negative step included), n is exactly 1 |
| Sampling.Schedule | code/draw_letters/extract_letters_batch.py:92-98 | the schedule fails iff the length is positive and the step is zero |
| Sampling.ArcParamAt | code/draw_letters/extract_letters_batch.py:97-98 | with a positive step, `min(i*step, L)` lies in [0, L], equals i*step before the last index and L at the last one |
| Sampling.ArcParamMonotone | code/draw_letters/extract_letters_batch.py:97-98 | with a positive step, the arc-length parameters never decrease |
| Sampling.ScheduleShape | code/draw_letters/extract_letters_batch.py:92-98 | a non-positive length gives no samples; otherwise there are n + 1 >= 2 parameters starting at 0, and with a positive step they are in [0, L], nondecreasing, i*step before the last, and exactly L at the end |
| Sampling.ScheduleNegativeStep | code/draw_letters/extract_letters_batch.py:92-98 | a positive length with a negative step gives the two parameters 0 and step, as `min(i*step, L)` does for n = 1 |
| Sampling.SamplesFollowSchedule | code/draw_letters/extract_letters_batch.py:96-105 | the samples fail exactly when the schedule does; otherwise there is one point per scheduled arc length, taken at the curve parameter of that length or, if inversion fails, at i/n |
| Sampling.SamplePathUniform | code/draw_letters/extract_letters_batch.py:90-105 | the loop computes `Samples`; it fails iff L > 0 and step = 0; a positive length yields n + 1 >= 2 points |
| Polyline.Runs | code/draw_letters/extract_letters_batch.py:109-117 | the runs are empty exactly when the input is |
| Polyline.RunsPartition | code/draw_letters/extract_letters_batch.py:107-117 | the runs concatenate back to the input, none is empty, consecutive points within a run are at most `gap` apart, and each run starts at a point more than `gap` from the previous run's last point |
| Polyline.KeepLong | code/draw_letters/extract_letters_batch.py:118 | every kept polyline has at least two points |
| Polyline.KeepLongCounts | code/draw_letters/extract_letters_batch.py:118 | the filter keeps every copy of each group of two or more points and no copy of a shorter one |
| Polyline.KeepLongOrder | code/draw_letters/extract_letters_batch.py:118 | the kept groups are a subsequence of the groups: their order is kept |
| Polyline.KeepLongKeeps | code/draw_letters/extract_letters_batch.py:118 | a group is kept iff it has at least two points, every copy of it is kept, and the kept groups keep their order |
| Polyline.KeepLongClose | code/draw_letters/extract_letters_batch.py:118 | dropping groups keeps every step inside the remaining ones within the gap |
| Polyline.LastRun | code/draw_letters/extract_letters_batch.py:109-117 | the last group is non-empty and ends with the last point, and it holds that point alone exactly when the point is the first one or far from its predecessor |
| Polyline.KeptIsNotIsolated | code/draw_letters/extract_letters_batch.py:107-118 | the kept groups, concatenated, are the input with exactly the isolated points removed (those far from both neighbours), in order |
| Polyline.SplitMeaning | code/draw_letters/extract_letters_batch.py:107-118 | the polylines of `split_on_gaps` keep every step within the gap, and together hold exactly the points that are not isolated |
| Polyline.SplitOnGaps | code/draw_letters/extract_letters_batch.py:107-118 | the loop computes `KeepLong(Runs(points, gap))`; no points give no polylines; every polyline has at least two points, no two consecutive ones more than `gap` apart; concatenated, they are the input with exactly the isolated points removed |
| Extract.MinOf | code/draw_letters/extract_letters_batch.py:189 | `min(ys)` is an element of ys and no element is below it |
| Extract.MaxOf | code/draw_letters/extract_letters_batch.py:189 | `max(ys)` is an element of ys and no element is above it |
| Extract.MapApply | code/draw_letters/extract_letters_batch.py:180 | mapping the transform keeps the number of samples |
| Extract.FlipGlyph | code/draw_letters/extract_letters_batch.py:186-194 | the flip keeps the number of polylines and the number of points of each (FlipGlyphShape gives the map of every point) |
| Extract.FlipGlyphShape | code/draw_letters/extract_letters_batch.py:186-194 | the flip keeps the number and sizes of the polylines and every x; it mirrors every y about the middle of [miny, maxy], keeps it inside that band and swaps the bottom and top points |
| Extract.FlipKeepsExtent | code/draw_letters/extract_letters_batch.py:186-194 | the flipped glyph has the same vertical extent as the original |
| Extract.FlipTwice | code/draw_letters/extract_letters_batch.py:186-194 | flipping twice gives back the original polylines |
| Extract.Gathered | code/draw_letters/extract_letters_batch.py:176-181 | every gathered polyline has at least two points |
| Extract.GatheredErrPersists | code/draw_letters/extract_letters_batch.py:177-181 | once one path element fails, the whole extraction fails with that element's error |
| Extract.ExtractLetterPolylines | code/draw_letters/extract_letters_batch.py:158-194 | the loop computes `Extracted`: transform, sample and split each element in order; no polylines give no polylines; otherwise the glyph is flipped; every polyline has at least two points |
| Header.Pts | code/draw_letters/extract_letters_batch.py:219-220 | one row per point, in order, holding its coordinates, and no separator row |
| Header.Join | code/draw_letters/extract_letters_batch.py:213-221 | a letter whose first polyline is non-empty starts with that polyline's first point, not a separator (JoinCounts and SplitJoin give its meaning) |
| Header.JoinCounts | code/draw_letters/extract_letters_batch.py:213-224 | the array has points-plus-separators rows, and exactly `len(polys) - 1` separators (0 for at most one polyline) |
| Header.JoinLast | code/draw_letters/extract_letters_batch.py:213-221 | a letter whose last polyline is non-empty ends with that polyline's last point, not a separator |
| Header.JoinSnoc | code/draw_letters/extract_letters_batch.py:215-221 | each polyline after the first is preceded by exactly one separator row |
| Header.SplitJoin | code/draw_letters/extract_letters_batch.py:213-221 | cutting a non-empty letter's array at its separators gives back its polylines, so the firmware can recover the pen-up points |
| Header.JoinSplit | code/draw_letters/extract_letters_batch.py:213-221 | every row sequence is the joined form of its separator-cut pieces |
| Header.LetterRows | code/draw_letters/extract_letters_batch.py:213-221 | the nested loop with the `first` flag emits `Join(polys)` and counts exactly the point rows |
| Header.SortedKeys | code/draw_letters/extract_letters_batch.py:201 | `sorted(per_letter.keys())` has one entry per letter, only letters present, every present letter, and is strictly increasing |
| Header.TableLen | code/draw_letters/extract_letters_batch.py:223-224 | a letter's `_len` is the number of rows written for it, and its separator count is `len(polys) - 1` (0 for at most one polyline) |
| Header.TablesMeaning | code/draw_letters/extract_letters_batch.py:208-224 | the i-th table is the table of the i-th key, its `_len` equals its row count, and its separators number `len(polys) - 1` (0 for at most one polyline) |
| Header.EmitTables | code/draw_letters/extract_letters_batch.py:208-225 | the letter loop emits one table per key in order, and `total_written` is the sum of their `_len` values |
| Header.WriteHeader | code/draw_letters/extract_letters_batch.py:198-229 | `LETTERS_PRESENT` is the sorted key string; one table per letter in that order, each with the rows of that letter's polylines, `_len` equal to its row count, and separators between polylines only; the total is the sum of the `_len` values |

## Left out

- Rendering of PNG previews (`save_png`) and the command line (`main`): these are image and file-system I/O.
- The `lxml` document: the xpath searches by id and `local-name()='path'`, the fallback to the holder element itself, and the ancestor walk are replaced by the list of `PathNode`s they produce.
- The stop at a non-element ancestor (`isinstance(cur.tag, str)`) is not modelled. An element's ancestry is taken to be all elements up to the root.
- Tokenising the `transform` string is not modelled. The model starts from the list of `(name, values)` pairs that the regular expression and `float()` produce, so the `ValueError` of a malformed number is outside the model.
- Path parsing, `length`, `ilength` and `point` from `svgpathtools` are not modelled. They are parameters of `Path`, and a raised `ilength` appears as `None`.
- Floating point: coordinates are exact reals, and `math.cos`, `sin`, `tan` and `radians` are the parameters of `Trig`.
- Polyline.Far: `math.hypot(dx, dy) > gap` is stated as `gap < 0 or dx² + dy² > gap²`. This is the same predicate over the reals and avoids a square root.
- Header.WriteHeader: keys are single characters, because `main` only ever passes `'a'..'z'`. The `%.2f` text formatting and the file writes are left out: a row is a value `Pt(x, y)` or `Break` for `{NAN, NAN}`.
- Header.WriteHeader: the `_len` value is an unbounded integer, as in the script. Its truncation to the header's `uint16_t` above 65535 belongs to the firmware compiler and is not modelled.
- The `xs` list computed in `extract_letter_polylines` is never used by the script, and is not modelled.
