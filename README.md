# Captcha solver and login loop of the Anna University marks scraper

This project models the two parts of `scraper-script.py` that hold real logic.

The **captcha solver** (`CaptchaSolver`) works in four steps:

1. It thresholds a 20 x 70 greyscale matrix into black (0) and white (255) pixels.
2. It cuts the result into fixed-pitch cells of 10 columns, one per position 0..5.
3. It scores each cell against every template of its library as the percentage of equal pixels.
4. For each position it keeps the first template with the highest score, provided that score is above 0. When every template scores 0 the position's symbol is empty. It returns the concatenated symbols.

The **login loop** (`AUInfoExtractor.login`) makes up to `max_retries` attempts. Each attempt captures the captcha to `temp_captcha_{attempt}.png`, solves it and submits the form. The `finally` block deletes the screenshot. `extract_info` turns a `False` result into an exception.

Modules:

- `Matrices` (matrices.dfy): the matrix type, the threshold step and the cell slicing.
- `Matcher` (matcher.dfy): agreement counts, the exact percentage, and the first-best fold over the library.
- `CaptchaSolver` (captcha_solver.dfy): the solver value, the shipped template library, and the imperative `Solve` and `ClassifyCell` methods proved against the spec functions `Matches`, `Symbols` and `LowPositions`.
- `TempFiles` (temp_files.dfy): decimal printing of the attempt number, screenshot paths, and the working directory as a `FileSystem` class over a mutable set of paths.
- `Login` (login.dfy): the browser as a function from attempt number to outcome. `RunFrom`/`Run` is the reference definition of the loop with its `try`/`except`/`finally`. `Login` is the imperative loop, proved equal to `Run`. Lemmas state what the loop promises.

Modelling choices:

- **Solver state.** The solver's library and character map never change after construction, so the solver is a datatype value (`Solver`) rather than a class.
- **Equal shapes.** The pixel comparison is modelled only for equal shapes. `Solve` requires every template to have the cell's shape: the matrix's rows by 10 columns. Cells are not cropped to the template. The shipped library's only template is 10 x 8, so it never meets this requirement (`SeedLibraryMismatch`). This mismatch is kept as the code has it and is not repaired.
- **Exact scores.** Scores are exact `real` values, `(agree / size) * 100`. There is no floating-point rounding.
- **Slicing at the edge.** A cell is sliced like a numpy slice. Near the right edge of a row it is cut short, and past the edge it is empty.
- **Warning log.** The low-confidence warning log is returned as the list of positions whose best score is below 50.
- **Unbound path.** A first attempt can fail before line 147 assigns `captcha_path`. Its `finally` block then raises `UnboundLocalError`, and that exception replaces the pending `continue` or `raise`. `Login` models this as written. An attempt that fails before line 147 leaves the variable holding the path of the latest earlier attempt that assigned one, which need not be the attempt just before it. The clean-up then removes that path again if a file of that name exists.

## Model

| member | source | states |
|---|---|---|
| `Matrices.Binarize` | scraper-script.py:59 | the result has the input's shape, every pixel is 0 or 255, and a pixel is 255 exactly when its grey value is strictly greater than 128 |
| `Matrices.ExtractCell` | scraper-script.py:65-70 | the cell keeps every row; pixel (i, j) of the cell is pixel (i, 10p + j) of the matrix; a row of the cell is 10 wide when the window fits, cut short at the row's end, and empty past it |
| `Matrices.CellsCoverColumns` | scraper-script.py:68-69 | cells 0..n-1 laid side by side give back exactly the first 10n columns of every row: no column is dropped or repeated |
| `Matrices.CaptchaCells` | scraper-script.py:68-69 | on a 20 x 70 matrix each of the cells 0 to 5 is 20 rows by 10 columns, the six cells side by side are exactly columns 0 to 59 of every row, and those columns followed by the unread cell 6 are the whole row |
| `Matcher.RowAgree` | scraper-script.py:78 | the count of equal positions in two rows is at most their length, equals it exactly when the rows are equal, and is 0 exactly when no position is equal |
| `Matcher.Agree` | scraper-script.py:78 | the count of equal pixels never exceeds the number of pixels |
| `Matcher.AgreeAllIff` | scraper-script.py:78 | every pixel agrees exactly when cell and template are equal |
| `Matcher.AgreeNoneIff` | scraper-script.py:78 | no pixel agrees exactly when every position differs |
| `Matcher.Percentage` | scraper-script.py:75-80 | the number of equal pixels divided by the number of pixels, times 100, computed exactly for equally shaped, non-empty operands; the score lies in [0, 100] |
| `Matcher.PercentageExtremes` | scraper-script.py:78-80 | the score is 100 exactly when the cell equals the template pixel for pixel, and 0 exactly when no pixel is equal |
| `Matcher.BestOf` | scraper-script.py:93-100 | the running best's symbol is empty or a single character |
| `Matcher.BestOfIsMaximal` | scraper-script.py:93-100 | the running best is at least 0 and at least every scanned score; its symbol stays empty, with score 0, exactly while every scanned score is 0 |
| `Matcher.BestOfIsFirstBest` | scraper-script.py:96-100 | a non-empty result is `charMap[idx]` with the score of template `idx`, where `idx` scores above 0, strictly above every earlier template and at least as high as every later one: the lowest index wins a tie |
| `Matcher.ExactMatchWins` | scraper-script.py:96-100 | a cell equal to template k and to no earlier template is classified as `charMap[k]` with confidence 100 |
| `CaptchaSolver.Scale` | scraper-script.py:35-46 | multiplying a 0/1 bitmap by 255 keeps its shape, gives only 0 and 255, and gives 255 exactly at the ones |
| `CaptchaSolver.NewSolver` | scraper-script.py:24-26 | the constructed solver holds the seed library, one 10 x 8 template of 0/255 pixels, and the 36-symbol character map, so there are no more templates than symbols |
| `CaptchaSolver.CharMapDistinct` | scraper-script.py:26 | no symbol occurs twice in the character map, so a symbol identifies one template index |
| `CaptchaSolver.SeedTemplates` | scraper-script.py:28-50 | the shipped library holds one template, 10 rows by 8 columns, of 0/255 pixels |
| `CaptchaSolver.SeedLibraryMismatch` | scraper-script.py:35-46 | no greyscale matrix meets the solver's equal-shape precondition with the shipped library, because its template is 8 columns wide and cells are 10 |
| `CaptchaSolver.CellScorable` | scraper-script.py:91-97 | under the solver's precondition each of the six cells can be scored against every template |
| `CaptchaSolver.ClassifyCell` | scraper-script.py:93-100 | the inner loop ends with the running best of the whole library in order, starting from score 0 and the empty symbol and replaced only on a strictly greater score |
| `CaptchaSolver.Solve` | scraper-script.py:85-107 | the answer is the six positions' symbols joined in order, and the low-confidence report is the list of positions whose best score is below 50; no precondition mentions confidence, so a low score never stops the solve |
| `CaptchaSolver.ClassifySymbol` | scraper-script.py:93-105 | a position's symbol is empty exactly when every template scores 0, and otherwise is `charMap[idx]` for the first best template `idx` |
| `CaptchaSolver.SymbolsInOrder` | scraper-script.py:91-105 | the result list has one entry per position, and entry p is position p's symbol |
| `CaptchaSolver.Concat` | scraper-script.py:107 | `''.join(parts)`: the parts concatenated in order; a character occurs in the result exactly when it occurs in some part |
| `CaptchaSolver.ConcatLength` | scraper-script.py:107 | joining n parts of at most one character gives at most n characters, and exactly n when every part has one |
| `CaptchaSolver.ConcatOfSingletons` | scraper-script.py:107 | joining one-character parts spells out those characters in order |
| `CaptchaSolver.SolveLength` | scraper-script.py:91-107 | the answer has at most 6 characters, and exactly 6 when every position has some template scoring above 0 |
| `CaptchaSolver.LowPositionsExact` | scraper-script.py:102-103 | a position is reported exactly when its best score is below 50, and the report is in increasing order |
| `CaptchaSolver.LowPositionIff` | scraper-script.py:93-103 | a position is reported as low confidence exactly when every template scores below 50 on its cell, which includes the case of an empty library |
| `CaptchaSolver.NoLowPositions` | scraper-script.py:102-103 | when no best score is below 50 nothing is reported |
| `CaptchaSolver.ExactCaptcha` | scraper-script.py:91-107 | a captcha whose six cells are copies of templates reads as those templates' symbols in order, every one at confidence 100, with nothing reported as low confidence |
| `TempFiles.Decimal` | scraper-script.py:147 | the printed attempt number is a non-empty string of decimal digits |
| `TempFiles.DecimalInjective` | scraper-script.py:147 | two numbers print the same only when they are equal |
| `TempFiles.TempPath` | scraper-script.py:147 | `f"temp_captcha_{attempt}.png"`: the path starts with `temp_captcha_`, ends with `.png`, and has at least one decimal digit and only decimal digits between them |
| `TempFiles.TempPathInjective` | scraper-script.py:147 | two attempts share a screenshot path exactly when they are the same attempt |
| `TempFiles.FileSystem.Exists` | scraper-script.py:181 | reports whether the path is present |
| `TempFiles.FileSystem.Screenshot` | scraper-script.py:148 | the path is present afterwards and nothing else changes |
| `TempFiles.FileSystem.Remove` | scraper-script.py:182 | the path is absent afterwards and nothing else changes |
| `Login.Login` | scraper-script.py:135-184 | the loop's result, the number of attempts it starts and the files it leaves are those of the reference run `Run` |
| `Login.RunFrom` | scraper-script.py:137-184 | the loop from a given attempt on: each attempt may choose its path and write its screenshot, the `finally` block raises `UnboundLocalError` when no path is bound and otherwise removes the bound path, then the loop returns `True`, re-raises on the last attempt, or continues; once an attempt starts the loop ends with `True` or an exception, having started at least one more and at most the remaining attempts, and otherwise it returns `False` and changes nothing |
| `Login.Run` | scraper-script.py:135-184 | a whole call of `login`, starting from attempt 0 with no path bound: it returns `False` exactly when `max_retries <= 0`, with no attempt and no file touched; otherwise it makes between 1 and `max_retries` attempts |
| `Login.RunFromLastDecides` | scraper-script.py:137-178 | every attempt before the last failed; the run returns `True` exactly when the last attempt succeeded; an unbound-path error comes only from a first attempt that failed before choosing its path; an attempt's own error escapes only from attempt `max_retries - 1` |
| `Login.LoginOutcome` | scraper-script.py:137-178 | `True` comes from the first successful attempt after only failures; an attempt's own exception escapes only after `max_retries` failed attempts and is the last one's; an unbound-path error comes from attempt 0 failing before line 147 |
| `Login.RunFromFirstSuccess` | scraper-script.py:137-172 | with a path already chosen, failures before the first success are retried and the run returns `True` after exactly that many attempts |
| `Login.RunFromExhausted` | scraper-script.py:168-177 | with a path already chosen and every remaining attempt failing, all attempts are made and the last one's error escapes |
| `Login.LoginRetries` | scraper-script.py:137-182 | the converse of `LoginOutcome`: the first success within the budget gives `True` after exactly k + 1 attempts; with no success the last error escapes after `max_retries` attempts; an early failure on attempt 0 gives `UnboundLocalError` |
| `Login.RunFromCleansUp` | scraper-script.py:180-182 | the run creates no file, removes only screenshot paths of attempts up to and including the last one it started, and leaves no screenshot of any attempt that chose its path |
| `Login.LoginLeavesNoScreenshots` | scraper-script.py:147-182 | after `login` returns or raises, the files are a subset of those before, only screenshot paths were removed, and no screenshot of an attempt that chose its path is left |
| `Login.SuccessOnThirdAttempt` | scraper-script.py:135-184 | two dashboard timeouts and then a success: `True` after 3 attempts, and the three screenshot paths are gone |
| `Login.ThreeTimeouts` | scraper-script.py:168-182 | three timeouts with `max_retries = 3`: three attempts, the timeout escapes, no screenshot is left |
| `Login.GuardedRunFrom` | scraper-script.py:137-184 | the loop with the clean-up skipped while no path is bound, otherwise as `RunFrom`: it never raises `UnboundLocalError`, and once an attempt starts it ends with `True` or an attempt's exception within the remaining attempts |
| `Login.GuardedFirstSuccess` | scraper-script.py:137-182 | in the guarded loop the first success within the budget returns `True` after exactly that many attempts, whatever stage the earlier failures reached |
| `Login.GuardedExhausted` | scraper-script.py:168-182 | in the guarded loop, when every attempt fails, all `max_retries` attempts are made and the last error escapes |
| `Login.EarlyTimeoutNotRetried` | scraper-script.py:180-182 | a timeout before line 147 on attempt 0 followed by a success: as written `login` raises `UnboundLocalError`, while the guarded loop logs in |
| `Login.ExtractInfoLogin` | scraper-script.py:226-240 | with the default budget of 3, `extract_info` goes on to read marks exactly when `login` returned `True`, the "Failed to login after maximum retries" exception is never raised, an exception from `login` passes through unchanged, the files left are exactly those of the reference run `Run`, no file is created, and, whether `login` returned or raised, no screenshot of any attempt that chose its path is left |

## Left out

- Image decoding and resizing (`Image.open(...).convert('L')`, `resize((70, 20))`, lines 55-56) happen in a foreign library whose interpolation is unspecified. The model takes the resized greyscale matrix as its input.
- Errors from decoding, and any other exception inside `solve`, are not modelled. Under the model's preconditions nothing in the pipeline raises. In the login loop such an error is one of the abstract attempt failures.
- CaptchaSolver.Solve: requires every template to have the cell's shape (all rows, 10 columns) and at most as many templates as symbols. Numpy's behaviour on the unequal shapes of the shipped library depends on the numpy version, so it is not modelled.
- CaptchaSolver.Solve: the float division of line 80 is modelled by exact rational arithmetic. Rounding is not modelled, so two scores that differ only after rounding could compare differently.
- All browser work is left out: driver setup, navigation, waits, element lookup, typing and clicking (lines 119-163), scraping the marks table (lines 186-224) and `driver.quit` (lines 242-244). Each attempt is reduced to its outcome: success, or a timeout or other error together with how far the attempt got.
- Login.Login: the captcha answer is not threaded from `Solve` into the attempt outcome, because whether the portal accepts it is decided by the browser.
- Login.Login: username and password are passed straight to the browser, so they are not parameters of the model.
- `main` is not modelled: argument parsing, the JSON dump and printing (lines 246-277).
- Logging calls and their configuration (lines 17-21 and throughout) are not modelled, except that the low-confidence warnings of `solve` are returned as a list of positions.

## Findings

| source | as written | input that shows it | evidently intended | confidence | as-written member | corrected member |
|---|---|---|---|---|---|---|
| scraper-script.py:180-182 | the `finally` block reads `captcha_path`, which is first assigned at line 147, so a first attempt that fails earlier raises `UnboundLocalError` instead of being retried | `max_retries = 3`; attempt 0 times out waiting for the login form (line 142); attempt 1 succeeds | skip the clean-up while no path is assigned, so the early failure is retried and attempt 1 logs in | medium (not executed) | `Login.EarlyTimeoutNotRetried` | `Login.GuardedFirstSuccess` |

`Login.Login` and the lemmas about `Run` keep the code as written. The corrected loop `GuardedRunFrom` differs only in its guarded clean-up. Its retry behaviour is proved by `GuardedFirstSuccess` and `GuardedExhausted`.
