/** The login retry loop of the marks extractor and the check its caller
    makes on the result.

    The browser is abstract: `driver(a)` is what attempt `a` comes to, and
    how far it got before failing. The working directory is a `FileSystem`.
    `Run` is the reference definition of the loop, attempt by attempt, with
    its `try`/`except`/`finally`; `Login` is the loop itself, proved equal to
    it, and the lemmas state what the loop promises. */
module Login {
  import opened TempFiles

  datatype Option<T> = None | Some(value: T)

  /** The exceptions an attempt can raise: a wait that ran out
      (`TimeoutException`) or any other exception. */
  datatype DriverError = Timeout | OtherError

  /** How far a failing attempt got. */
  datatype Stage =
    | BeforePath        // navigation, the form wait or the captcha lookup raised
    | ScreenshotFailed  // the path was chosen, the screenshot raised and wrote nothing
    | AfterScreenshot   // the screenshot was written; solving, submitting or the dashboard wait raised

  /** The outcome of one attempt, as the browser and the solver decide it. */
  datatype Attempt = Succeeds | Fails(error: DriverError, stage: Stage)
  {
    /** The attempt reached the assignment of its screenshot path. */
    predicate SetsPath()
    {
      Succeeds? || stage != BeforePath
    }

    /** The attempt wrote its screenshot. */
    predicate WritesScreenshot()
    {
      Succeeds? || stage == AfterScreenshot
    }
  }

  /** What escapes `login`: an attempt's own exception, or the
      `UnboundLocalError` the `finally` block raises when no screenshot path
      has been assigned yet. */
  datatype LoginError = Propagated(error: DriverError) | UnboundCaptchaPath

  /** How `login` ends: it returns a boolean or it raises. */
  datatype LoginResult = Returned(loggedIn: bool) | Raised(error: LoginError)

  /** A run of the loop: how it ended, how many attempts it started, and the
      files present afterwards. */
  datatype LoginRun = LoginRun(result: LoginResult, attempts: nat, files: set<string>)

  /** How the `try` and `except` blocks of an attempt want to leave it, before
      the `finally` block runs. */
  datatype Exit = ReturnTrue | Continue | Reraise(error: DriverError)

  /** The loop from attempt `attempt` on, with the screenshot path variable
      `captchaPath` as the previous attempts left it. Once an attempt starts,
      the loop ends with `True` or an exception, after at least one and at
      most the remaining attempts; it falls through to `return False` only
      when it does not start one. */
  function RunFrom(driver: nat -> Attempt, maxRetries: int, attempt: nat, captchaPath: Option<string>, files: set<string>): (run: LoginRun)
    ensures attempt < maxRetries ==> run.result != Returned(false) && attempt < run.attempts <= maxRetries
    ensures attempt >= maxRetries ==> run == LoginRun(Returned(false), attempt, files)
    decreases maxRetries - attempt
  {
    if attempt >= maxRetries then LoginRun(Returned(false), attempt, files)
    else
      var outcome := driver(attempt);
      var path := if outcome.SetsPath() then Some(TempPath(attempt)) else captchaPath;
      var written := if outcome.WritesScreenshot() then files + {TempPath(attempt)} else files;
      if path.None? then LoginRun(Raised(UnboundCaptchaPath), attempt + 1, written)
      else
        var cleaned := written - {path.value};
        if outcome.Succeeds? then LoginRun(Returned(true), attempt + 1, cleaned)
        else if attempt == maxRetries - 1 then LoginRun(Raised(Propagated(outcome.error)), attempt + 1, cleaned)
        else RunFrom(driver, maxRetries, attempt + 1, path, cleaned)
  }

  /** A whole call of `login`, starting with the files `files`. It returns
      `False` exactly when `max_retries <= 0`, and then it makes no attempt
      and touches no file; otherwise it makes between one and `max_retries`
      attempts and returns `True` or raises. */
  function Run(driver: nat -> Attempt, maxRetries: int, files: set<string>): (run: LoginRun)
    ensures run.result == Returned(false) <==> maxRetries <= 0
    ensures maxRetries <= 0 ==> run == LoginRun(Returned(false), 0, files)
    ensures maxRetries >= 1 ==> 1 <= run.attempts <= maxRetries
  {
    RunFrom(driver, maxRetries, 0, None, files)
  }

  /** `login(driver, username, password, max_retries)`. The ghost result
      `attempts` counts the attempts started. */
  method Login(fs: FileSystem, driver: nat -> Attempt, maxRetries: int) returns (result: LoginResult, ghost attempts: nat)
    modifies fs
    ensures LoginRun(result, attempts, fs.files) == Run(driver, maxRetries, old(fs.files))
  {
    var captchaPath: Option<string> := None;
    var attempt: nat := 0;
    while attempt < maxRetries
      invariant RunFrom(driver, maxRetries, attempt, captchaPath, fs.files) == Run(driver, maxRetries, old(fs.files))
      decreases maxRetries - attempt
    {
      ghost var pathBefore, filesBefore := captchaPath, fs.files;
      // try
      var outcome := driver(attempt);
      if outcome.SetsPath() {
        captchaPath := Some(TempPath(attempt));
        if outcome.WritesScreenshot() {
          fs.Screenshot(captchaPath.value);
        }
      }
      // except
      var exit := if outcome.Succeeds? then ReturnTrue
                  else if attempt == maxRetries - 1 then Reraise(outcome.error)
                  else Continue;
      // finally
      if captchaPath.None? {
        result, attempts := Raised(UnboundCaptchaPath), attempt + 1;
        return;
      }
      var present := fs.Exists(captchaPath.value);
      if present {
        fs.Remove(captchaPath.value);
      }
      match exit
      case ReturnTrue =>
        result, attempts := Returned(true), attempt + 1;
        return;
      case Reraise(error) =>
        result, attempts := Raised(Propagated(error)), attempt + 1;
        return;
      case Continue =>
        assert outcome.Fails? && attempt < maxRetries - 1;
        assert captchaPath == (if outcome.SetsPath() then Some(TempPath(attempt)) else pathBefore);
        assert fs.files == (if outcome.WritesScreenshot() then filesBefore + {TempPath(attempt)} else filesBefore) - {captchaPath.value};
        assert RunFrom(driver, maxRetries, attempt, pathBefore, filesBefore)
            == RunFrom(driver, maxRetries, attempt + 1, captchaPath, fs.files);
        attempt := attempt + 1;
    }
    result, attempts := Returned(false), attempt;
  }

  /** Every attempt before the last one failed; the run returns `True` exactly
      when its last attempt succeeded; an `UnboundLocalError` comes only from
      a first attempt that failed before choosing its path; and an attempt's
      own exception escapes only from the last permitted attempt. */
  lemma {:induction false} RunFromLastDecides(driver: nat -> Attempt, maxRetries: int, attempt: nat, captchaPath: Option<string>, files: set<string>)
    requires attempt < maxRetries
    ensures var run := RunFrom(driver, maxRetries, attempt, captchaPath, files);
      && attempt < run.attempts
      && (forall j :: attempt <= j < run.attempts - 1 ==> driver(j).Fails?)
      && (run.result == Returned(true) <==> driver(run.attempts - 1).Succeeds?)
      && (run.result == Raised(UnboundCaptchaPath) ==>
            captchaPath.None? && run.attempts == attempt + 1 && driver(attempt) == Fails(driver(attempt).error, BeforePath))
      && (forall e :: run.result == Raised(Propagated(e)) ==>
            run.attempts == maxRetries && driver(maxRetries - 1).Fails? && driver(maxRetries - 1).error == e)
    decreases maxRetries - attempt
  {
    var outcome := driver(attempt);
    var path := if outcome.SetsPath() then Some(TempPath(attempt)) else captchaPath;
    var written := if outcome.WritesScreenshot() then files + {TempPath(attempt)} else files;
    if path.Some? && outcome.Fails? && attempt != maxRetries - 1 {
      RunFromLastDecides(driver, maxRetries, attempt + 1, path, written - {path.value});
    }
  }

  /** `login` returns `True` at the first successful attempt and makes no
      further attempt; if the last permitted attempt fails, its error
      escapes. */
  lemma LoginOutcome(driver: nat -> Attempt, maxRetries: int, files: set<string>)
    requires maxRetries >= 1
    ensures var run := Run(driver, maxRetries, files);
      && 0 < run.attempts
      && (run.result == Returned(true) ==>
            driver(run.attempts - 1) == Succeeds && forall j :: 0 <= j < run.attempts - 1 ==> driver(j).Fails?)
      && (forall e :: run.result == Raised(Propagated(e)) ==>
            run.attempts == maxRetries && (forall j :: 0 <= j < maxRetries ==> driver(j).Fails?)
            && driver(maxRetries - 1).error == e)
      && (run.result == Raised(UnboundCaptchaPath) ==>
            run.attempts == 1 && driver(0).Fails? && driver(0).stage == BeforePath)
  {
    RunFromLastDecides(driver, maxRetries, 0, None, files);
  }

  /** With the path already assigned, attempts up to the first success all
      fail and are retried: the run returns `True` after the success. */
  lemma {:induction false} RunFromFirstSuccess(driver: nat -> Attempt, maxRetries: int, attempt: nat, captchaPath: Option<string>, files: set<string>, k: nat)
    requires attempt <= k < maxRetries
    requires captchaPath.Some? || driver(attempt).SetsPath()
    requires driver(k) == Succeeds
    requires forall j :: attempt <= j < k ==> driver(j).Fails?
    ensures RunFrom(driver, maxRetries, attempt, captchaPath, files).result == Returned(true)
    ensures RunFrom(driver, maxRetries, attempt, captchaPath, files).attempts == k + 1
    decreases k - attempt
  {
    if attempt < k {
      var outcome := driver(attempt);
      var path := if outcome.SetsPath() then Some(TempPath(attempt)) else captchaPath;
      var written := if outcome.WritesScreenshot() then files + {TempPath(attempt)} else files;
      RunFromFirstSuccess(driver, maxRetries, attempt + 1, path, written - {path.value}, k);
    }
  }

  /** With the path already assigned, when every remaining attempt fails the
      last one's error escapes after all of them have been made. */
  lemma {:induction false} RunFromExhausted(driver: nat -> Attempt, maxRetries: int, attempt: nat, captchaPath: Option<string>, files: set<string>)
    requires attempt < maxRetries
    requires captchaPath.Some? || driver(attempt).SetsPath()
    requires forall j :: attempt <= j < maxRetries ==> driver(j).Fails?
    ensures RunFrom(driver, maxRetries, attempt, captchaPath, files).result == Raised(Propagated(driver(maxRetries - 1).error))
    ensures RunFrom(driver, maxRetries, attempt, captchaPath, files).attempts == maxRetries
    decreases maxRetries - attempt
  {
    if attempt < maxRetries - 1 {
      var outcome := driver(attempt);
      var path := if outcome.SetsPath() then Some(TempPath(attempt)) else captchaPath;
      var written := if outcome.WritesScreenshot() then files + {TempPath(attempt)} else files;
      RunFromExhausted(driver, maxRetries, attempt + 1, path, written - {path.value});
    }
  }

  /** The converse of `LoginOutcome`: once the first attempt has chosen its
      path, the first success within the budget makes `login` return `True`
      after exactly that many attempts, and with no success the last
      attempt's error escapes after `max_retries` attempts. A first attempt
      that fails before choosing its path ends the call with
      `UnboundLocalError` instead of a retry. */
  lemma LoginRetries(driver: nat -> Attempt, maxRetries: int, files: set<string>)
    requires maxRetries >= 1
    ensures driver(0).Fails? && driver(0).stage == BeforePath ==>
      Run(driver, maxRetries, files).result == Raised(UnboundCaptchaPath)
    ensures forall k :: (0 <= k < maxRetries && driver(k) == Succeeds && driver(0).SetsPath()
        && (forall j :: 0 <= j < k ==> driver(j).Fails?)) ==>
      Run(driver, maxRetries, files).result == Returned(true) && Run(driver, maxRetries, files).attempts == k + 1
    ensures (driver(0).SetsPath() && (forall j :: 0 <= j < maxRetries ==> driver(j).Fails?)) ==>
      Run(driver, maxRetries, files).result == Raised(Propagated(driver(maxRetries - 1).error))
      && Run(driver, maxRetries, files).attempts == maxRetries
  {
    forall k | 0 <= k < maxRetries && driver(k) == Succeeds && driver(0).SetsPath()
        && (forall j :: 0 <= j < k ==> driver(j).Fails?)
      ensures Run(driver, maxRetries, files).result == Returned(true) && Run(driver, maxRetries, files).attempts == k + 1
    {
      RunFromFirstSuccess(driver, maxRetries, 0, None, files, k);
    }
    if driver(0).SetsPath() && (forall j :: 0 <= j < maxRetries ==> driver(j).Fails?) {
      RunFromExhausted(driver, maxRetries, 0, None, files);
    }
  }

  /** The `finally` block only ever removes screenshot paths, and each
      attempt that chose a path has removed it by the time the loop ends,
      whether it returned, continued or raised. */
  lemma {:induction false} RunFromCleansUp(driver: nat -> Attempt, maxRetries: int, attempt: nat, captchaPath: Option<string>, files: set<string>)
    requires captchaPath.None? || exists b :: 0 <= b < attempt && captchaPath.value == TempPath(b)
    ensures var run := RunFrom(driver, maxRetries, attempt, captchaPath, files);
      && run.files <= files
      && (forall p :: p in files - run.files ==> exists b :: 0 <= b < run.attempts && p == TempPath(b))
      && (forall j :: attempt <= j < run.attempts && driver(j).SetsPath() ==> TempPath(j) !in run.files)
    decreases maxRetries - attempt
  {
    if attempt < maxRetries {
      var outcome := driver(attempt);
      var path := if outcome.SetsPath() then Some(TempPath(attempt)) else captchaPath;
      var written := if outcome.WritesScreenshot() then files + {TempPath(attempt)} else files;
      if path.Some? {
        var cleaned := written - {path.value};
        assert cleaned <= files;
        var b :| 0 <= b <= attempt && path.value == TempPath(b);
        if outcome.Fails? && attempt != maxRetries - 1 {
          RunFromCleansUp(driver, maxRetries, attempt + 1, path, cleaned);
          var run := RunFrom(driver, maxRetries, attempt + 1, path, cleaned);
          forall p | p in files - run.files
            ensures exists b' :: 0 <= b' < run.attempts && p == TempPath(b')
          {
            if p !in cleaned {
              assert p == TempPath(b) && b < run.attempts;
            } else {
              assert p in cleaned - run.files;
            }
          }
        }
      }
    }
  }

  /** After `login` returns or raises, no screenshot of any attempt that
      chose its path is left, no other file has been removed, and no file has
      been created. */
  lemma LoginLeavesNoScreenshots(driver: nat -> Attempt, maxRetries: int, files: set<string>)
    ensures var run := Run(driver, maxRetries, files);
      && run.files <= files
      && (forall p :: p in files - run.files ==> exists b :: 0 <= b < run.attempts && p == TempPath(b))
      && (forall j :: 0 <= j < run.attempts && driver(j).SetsPath() ==> TempPath(j) !in run.files)
  {
    RunFromCleansUp(driver, maxRetries, 0, None, files);
  }

  /** Two attempts time out waiting for the dashboard and the third logs in:
      `login` returns `True` after three attempts and the three screenshots
      are gone. */
  lemma SuccessOnThirdAttempt(files: set<string>)
    ensures var driver := (a: nat) => if a < 2 then Fails(Timeout, AfterScreenshot) else Succeeds;
      Run(driver, 3, files) == LoginRun(Returned(true), 3, files - {TempPath(0), TempPath(1), TempPath(2)})
  {
  }

  /** Every one of three attempts times out: all three are made and the last
      timeout escapes. */
  lemma ThreeTimeouts(files: set<string>)
    ensures var driver := (a: nat) => Fails(Timeout, AfterScreenshot);
      Run(driver, 3, files) == LoginRun(Raised(Propagated(Timeout)), 3, files - {TempPath(0), TempPath(1), TempPath(2)})
  {
  }

  /** The loop as evidently intended: the `finally` block skips the clean-up
      while no screenshot path has been assigned, instead of failing on the
      unbound variable. Everything else is as in `RunFrom`. */
  function GuardedRunFrom(driver: nat -> Attempt, maxRetries: int, attempt: nat, captchaPath: Option<string>, files: set<string>): (run: LoginRun)
    ensures run.result != Raised(UnboundCaptchaPath)
    ensures attempt < maxRetries ==> run.result != Returned(false) && attempt < run.attempts <= maxRetries
    ensures attempt >= maxRetries ==> run == LoginRun(Returned(false), attempt, files)
    decreases maxRetries - attempt
  {
    if attempt >= maxRetries then LoginRun(Returned(false), attempt, files)
    else
      var outcome := driver(attempt);
      var path := if outcome.SetsPath() then Some(TempPath(attempt)) else captchaPath;
      var written := if outcome.WritesScreenshot() then files + {TempPath(attempt)} else files;
      var cleaned := if path.Some? then written - {path.value} else written;
      if outcome.Succeeds? then LoginRun(Returned(true), attempt + 1, cleaned)
      else if attempt == maxRetries - 1 then LoginRun(Raised(Propagated(outcome.error)), attempt + 1, cleaned)
      else GuardedRunFrom(driver, maxRetries, attempt + 1, path, cleaned)
  }

  /** With the guard, every failure before the first success is retried: the
      first success within the budget returns `True` after exactly that many
      attempts. */
  lemma {:induction false} GuardedFirstSuccess(driver: nat -> Attempt, maxRetries: int, attempt: nat, captchaPath: Option<string>, files: set<string>, k: nat)
    requires attempt <= k < maxRetries
    requires driver(k) == Succeeds
    requires forall j :: attempt <= j < k ==> driver(j).Fails?
    ensures GuardedRunFrom(driver, maxRetries, attempt, captchaPath, files).result == Returned(true)
    ensures GuardedRunFrom(driver, maxRetries, attempt, captchaPath, files).attempts == k + 1
    decreases k - attempt
  {
    if attempt < k {
      var outcome := driver(attempt);
      var path := if outcome.SetsPath() then Some(TempPath(attempt)) else captchaPath;
      var written := if outcome.WritesScreenshot() then files + {TempPath(attempt)} else files;
      var cleaned := if path.Some? then written - {path.value} else written;
      GuardedFirstSuccess(driver, maxRetries, attempt + 1, path, cleaned, k);
    }
  }

  /** With the guard, when every attempt fails all `max_retries` of them are
      made and the last one's error escapes. */
  lemma {:induction false} GuardedExhausted(driver: nat -> Attempt, maxRetries: int, attempt: nat, captchaPath: Option<string>, files: set<string>)
    requires attempt < maxRetries
    requires forall j :: attempt <= j < maxRetries ==> driver(j).Fails?
    ensures GuardedRunFrom(driver, maxRetries, attempt, captchaPath, files).result == Raised(Propagated(driver(maxRetries - 1).error))
    ensures GuardedRunFrom(driver, maxRetries, attempt, captchaPath, files).attempts == maxRetries
    decreases maxRetries - attempt
  {
    if attempt < maxRetries - 1 {
      var outcome := driver(attempt);
      var path := if outcome.SetsPath() then Some(TempPath(attempt)) else captchaPath;
      var written := if outcome.WritesScreenshot() then files + {TempPath(attempt)} else files;
      var cleaned := if path.Some? then written - {path.value} else written;
      GuardedExhausted(driver, maxRetries, attempt + 1, path, cleaned);
    }
  }

  /** A first attempt that times out before the captcha is captured, followed
      by a successful one: as written, `login` raises `UnboundLocalError`
      from its `finally` block; with the guard it logs in on the second
      attempt. */
  lemma EarlyTimeoutNotRetried(files: set<string>)
    ensures var driver := (a: nat) => if a == 0 then Fails(Timeout, BeforePath) else Succeeds;
      && Run(driver, 3, files).result == Raised(UnboundCaptchaPath)
      && GuardedRunFrom(driver, 3, 0, None, files).result == Returned(true)
  {
  }

  /** `extract_info` calls `login` with the default budget. */
  const DefaultMaxRetries: int := 3

  /** How `extract_info` leaves the login step. */
  datatype AfterLogin =
    | ExtractMarks                    // logged in: go on to read the marks
    | LoginRaised(error: LoginError)  // `login` raised and the exception passes through
    | LoginFailed                     // `login` returned `False`: "Failed to login after maximum retries"

  /** The login step of `extract_info`: log in with the default budget and
      turn a `False` into an exception. With three attempts `login` never
      returns `False`, so that exception is never raised. */
  method ExtractInfoLogin(fs: FileSystem, driver: nat -> Attempt) returns (next: AfterLogin)
    modifies fs
    ensures next == ExtractMarks <==> Run(driver, DefaultMaxRetries, old(fs.files)).result == Returned(true)
    ensures next != LoginFailed
    ensures Run(driver, DefaultMaxRetries, old(fs.files)).result.Raised? ==>
      next == LoginRaised(Run(driver, DefaultMaxRetries, old(fs.files)).result.error)
    ensures fs.files <= old(fs.files)
    ensures fs.files == Run(driver, DefaultMaxRetries, old(fs.files)).files
    ensures forall j :: 0 <= j < Run(driver, DefaultMaxRetries, old(fs.files)).attempts && driver(j).SetsPath() ==>
      TempPath(j) !in fs.files
  {
    LoginLeavesNoScreenshots(driver, DefaultMaxRetries, fs.files);
    var result, attempts := Login(fs, driver, DefaultMaxRetries);
    match result
    case Returned(loggedIn) =>
      next := if loggedIn then ExtractMarks else LoginFailed;
    case Raised(error) =>
      next := LoginRaised(error);
  }
}
