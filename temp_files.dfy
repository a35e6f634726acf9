/** The temporary captcha screenshots of the login loop: their names
    `temp_captcha_{attempt}.png`, and the working directory they are written
    to and removed from, as a mutable set of paths. */
module TempFiles {

  /** The character of a decimal digit. */
  function DigitChar(d: nat): (c: char)
    requires d < 10
    ensures '0' <= c <= '9'
  {
    "0123456789"[d]
  }

  /** Python's `str(n)` for a natural number: its decimal digits, most
      significant first, without leading zeros. */
  function Decimal(n: nat): (s: string)
    ensures |s| >= 1
    ensures forall k :: 0 <= k < |s| ==> '0' <= s[k] <= '9'
    decreases n
  {
    if n < 10 then [DigitChar(n)] else Decimal(n / 10) + [DigitChar(n % 10)]
  }

  lemma DigitCharInjective(a: nat, b: nat)
    requires a < 10 && b < 10 && DigitChar(a) == DigitChar(b)
    ensures a == b
  {
  }

  /** Different numbers print differently. */
  lemma {:induction false} DecimalInjective(a: nat, b: nat)
    requires Decimal(a) == Decimal(b)
    ensures a == b
    decreases a
  {
    var s := Decimal(a);
    if a < 10 && b < 10 {
      DigitCharInjective(a, b);
    } else if a >= 10 && b >= 10 {
      assert s == Decimal(a / 10) + [DigitChar(a % 10)];
      assert s == Decimal(b / 10) + [DigitChar(b % 10)];
      assert Decimal(a / 10) == s[..|s| - 1] == Decimal(b / 10);
      DigitCharInjective(a % 10, b % 10);
      DecimalInjective(a / 10, b / 10);
    }
  }

  const TempPrefix: string := "temp_captcha_"
  const TempSuffix: string := ".png"

  /** The screenshot path of login attempt `attempt`: the prefix, at least one
      decimal digit, and the suffix. */
  function TempPath(attempt: nat): (path: string)
    ensures |path| > |TempPrefix| + |TempSuffix|
    ensures path[..|TempPrefix|] == TempPrefix && path[|path| - |TempSuffix|..] == TempSuffix
    ensures forall k :: |TempPrefix| <= k < |path| - |TempSuffix| ==> '0' <= path[k] <= '9'
  {
    TempPrefix + Decimal(attempt) + TempSuffix
  }

  /** Each attempt has its own screenshot path. */
  lemma TempPathInjective(a: nat, b: nat)
    ensures TempPath(a) == TempPath(b) <==> a == b
  {
    if TempPath(a) == TempPath(b) {
      var p := TempPath(a);
      assert Decimal(a) == p[|TempPrefix|..|p| - |TempSuffix|];
      assert Decimal(b) == p[|TempPrefix|..|p| - |TempSuffix|];
      DecimalInjective(a, b);
    }
  }

  /** The working directory: the set of paths that exist. */
  class FileSystem {
    var files: set<string>

    constructor (initial: set<string>)
      ensures files == initial
    {
      files := initial;
    }

    /** `os.path.exists(path)`. */
    method Exists(path: string) returns (present: bool)
      ensures present <==> path in files
    {
      present := path in files;
    }

    /** `element.screenshot(path)`: creates the file, or overwrites it. */
    method Screenshot(path: string)
      modifies this
      ensures files == old(files) + {path}
    {
      files := files + {path};
    }

    /** `os.remove(path)`, which the caller only invokes on an existing path. */
    method Remove(path: string)
      requires path in files
      modifies this
      ensures files == old(files) - {path}
    {
      files := files - {path};
    }
  }
}
