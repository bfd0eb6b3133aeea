/** The command-line handling at the top of `VLCScrubber.main`: a left-to-right
    pass over the arguments that overrides three connection settings. */
module Cli {
  import opened Common
  import JavaInts

  const HostFlag: string := "--host"
  const PortFlag: string := "--port"
  const PasswordFlag: string := "--password"

  /** Where and how to reach the media player's telnet interface. */
  datatype Config = Config(host: string, port: int, password: string)

  const Defaults: Config := Config("localhost", 4212, "password")

  /** Why `main` stops before connecting. `Usage` prints the help text and
      exits with status 1; it covers both a flag in the last position (an
      `ArrayIndexOutOfBoundsException` that is caught) and a flag value
      containing `--` (the `invalidArguments` flag). `BadNumber` is the
      `NumberFormatException` of `Integer.parseInt`, which nothing catches. */
  datatype CliError = Usage | BadNumber(text: string)

  /** The loop's local state: the three settings and `invalidArguments`. */
  datatype Scan = Scan(config: Config, invalid: bool)

  predicate IsFlag(a: string) {
    a == HostFlag || a == PortFlag || a == PasswordFlag
  }

  /** Java's `s.contains("--")`. */
  predicate HasDoubleDash(s: string) {
    exists i :: 0 <= i < |s| - 1 && s[i] == '-' && s[i + 1] == '-'
  }

  /** The occurrence of `flag` at index `j` overwrites its setting with the
      next argument. */
  predicate Assigns(args: seq<string>, flag: string, j: int) {
    0 <= j && j + 1 < |args| && args[j] == flag && !HasDoubleDash(args[j + 1])
  }

  /** The flag at index `j` is followed by a value containing `--`, which
      marks the arguments invalid. */
  predicate Marks(args: seq<string>, j: int) {
    0 <= j && j + 1 < |args| && IsFlag(args[j]) && HasDoubleDash(args[j + 1])
  }

  /** Processing index `j` throws: the flag has no following argument, or
      it is `--port` with a clean value that is not an `int`. */
  predicate Aborts(args: seq<string>, j: int) {
    && 0 <= j < |args|
    && IsFlag(args[j])
    && (|| j + 1 == |args|
        || (args[j] == PortFlag && !HasDoubleDash(args[j + 1]) && JavaInts.ParseInt(args[j + 1]).None?))
  }

  function AbortError(args: seq<string>, j: int): CliError
    requires Aborts(args, j)
  {
    if j + 1 == |args| then Usage else BadNumber(args[j + 1])
  }

  ghost predicate FirstAborts(args: seq<string>, j: int) {
    Aborts(args, j) && forall i :: 0 <= i < j ==> !Aborts(args, i)
  }

  ghost predicate NoAborts(args: seq<string>) {
    forall j :: 0 <= j < |args| ==> !Aborts(args, j)
  }

  /** Index `j` is the last occurrence before `k` that assigns `flag`. */
  ghost predicate LastAssigns(args: seq<string>, k: int, flag: string, j: int) {
    0 <= j < k && Assigns(args, flag, j) && forall i :: j < i < k ==> !Assigns(args, flag, i)
  }

  ghost predicate NeverAssigns(args: seq<string>, k: int, flag: string) {
    forall j :: 0 <= j < k ==> !Assigns(args, flag, j)
  }

  /** One iteration of the loop, for index `idx`. The value of a flag is
      always `args[idx + 1]` and is examined again on the next iteration. */
  function Step(args: seq<string>, idx: nat, st: Scan): (r: Result<Scan, CliError>)
    requires idx < |args|
    ensures !IsFlag(args[idx]) ==> r == Success(st)
    ensures r.Failure? <==> Aborts(args, idx)
    ensures r.Failure? ==> r.error == AbortError(args, idx)
    ensures r.Success? ==> (r.value.invalid <==> st.invalid || Marks(args, idx))
    ensures r.Success? ==>
              r.value.config.host == (if Assigns(args, HostFlag, idx) then args[idx + 1] else st.config.host)
    ensures r.Success? ==>
              r.value.config.password == (if Assigns(args, PasswordFlag, idx) then args[idx + 1] else st.config.password)
    ensures r.Success? && !Assigns(args, PortFlag, idx) ==> r.value.config.port == st.config.port
    ensures r.Success? && Assigns(args, PortFlag, idx) ==>
              JavaInts.ParseInt(args[idx + 1]) == Some(r.value.config.port)
  {
    var arg := args[idx];
    if !IsFlag(arg) then Success(st)
    else if idx + 1 == |args| then Failure(Usage)
    else
      var value := args[idx + 1];
      if HasDoubleDash(value) then Success(st.(invalid := true))
      else if arg == HostFlag then Success(st.(config := st.config.(host := value)))
      else if arg == PortFlag then
        match JavaInts.ParseInt(value)
        case None => Failure(BadNumber(value))
        case Some(n) => Success(st.(config := st.config.(port := n)))
      else Success(st.(config := st.config.(password := value)))
  }

  /** The loop after its first `k` iterations, or the exception that ended it. */
  function ScanTo(args: seq<string>, k: nat): (r: Result<Scan, CliError>)
    requires k <= |args|
    ensures r.Success? ==> forall j :: 0 <= j < k ==> !Aborts(args, j)
    ensures r.Failure? ==> exists j :: 0 <= j < k && Aborts(args, j) && r.error == AbortError(args, j)
    decreases k
  {
    if k == 0 then Success(Scan(Defaults, false))
    else
      match ScanTo(args, k - 1)
      case Failure(e) => Failure(e)
      case Success(st) => Step(args, k - 1, st)
  }

  /** The whole argument handling of `main`: the loop, then the check of
      `invalidArguments`. */
  function Parse(args: seq<string>): (r: Result<Config, CliError>)
    ensures args == [] ==> r == Success(Defaults)
  {
    match ScanTo(args, |args|)
    case Failure(e) => Failure(e)
    case Success(st) => if st.invalid then Failure(Usage) else Success(st.config)
  }

  /** The loop stops exactly at the first index that throws. */
  lemma {:induction false} ScanToFailure(args: seq<string>, k: nat)
    requires k <= |args|
    ensures ScanTo(args, k).Failure? <==> exists j :: 0 <= j < k && Aborts(args, j)
    ensures forall j :: 0 <= j < k && FirstAborts(args, j) ==> ScanTo(args, k) == Failure(AbortError(args, j))
  {
    if k > 0 {
      ScanToFailure(args, k - 1);
      match ScanTo(args, k - 1)
      case Failure(e) =>
        var w :| 0 <= w < k - 1 && Aborts(args, w);
      case Success(st) =>
        forall j | 0 <= j < k && FirstAborts(args, j)
          ensures ScanTo(args, k) == Failure(AbortError(args, j))
        {
          if j < k - 1 {
            assert false;
          }
        }
        if ScanTo(args, k).Failure? {
          assert Aborts(args, k - 1);
        }
    }
  }

  /** The setting a host or password flag controls. */
  function TextSetting(c: Config, flag: string): string
    requires flag == HostFlag || flag == PasswordFlag
  {
    if flag == HostFlag then c.host else c.password
  }

  /** When the loop runs through the first `k` arguments, `invalidArguments`
      records whether some flag value among them contained `--`. */
  lemma {:induction false} ScanToInvalid(args: seq<string>, k: nat)
    requires k <= |args|
    requires ScanTo(args, k).Success?
    ensures ScanTo(args, k).value.invalid <==> exists j :: 0 <= j < k && Marks(args, j)
  {
    if k > 0 {
      ScanToInvalid(args, k - 1);
      var prev := ScanTo(args, k - 1).value;
      var st := ScanTo(args, k).value;
      assert Step(args, k - 1, prev) == Success(st);
      if st.invalid && !prev.invalid {
        assert Marks(args, k - 1);
      }
    }
  }

  /** When the loop runs through the first `k` arguments, the host (or
      password) is the value of the last occurrence of its flag that
      assigns it, or the default if there is none. */
  lemma {:induction false} ScanToText(args: seq<string>, k: nat, flag: string)
    requires k <= |args|
    requires flag == HostFlag || flag == PasswordFlag
    requires ScanTo(args, k).Success?
    ensures NeverAssigns(args, k, flag) ==> TextSetting(ScanTo(args, k).value.config, flag) == TextSetting(Defaults, flag)
    ensures forall j :: LastAssigns(args, k, flag, j) ==> TextSetting(ScanTo(args, k).value.config, flag) == args[j + 1]
  {
    if k > 0 {
      ScanToText(args, k - 1, flag);
      var prev := ScanTo(args, k - 1).value;
      var st := ScanTo(args, k).value;
      assert Step(args, k - 1, prev) == Success(st);
      forall j | LastAssigns(args, k, flag, j) && j < k - 1
        ensures LastAssigns(args, k - 1, flag, j) && !Assigns(args, flag, k - 1)
      {
      }
    }
  }

  /** When the loop runs through the first `k` arguments, the port is the
      parsed value of the last `--port` occurrence that assigns it, or the
      default if there is none. */
  lemma {:induction false} ScanToPort(args: seq<string>, k: nat)
    requires k <= |args|
    requires ScanTo(args, k).Success?
    ensures NeverAssigns(args, k, PortFlag) ==> ScanTo(args, k).value.config.port == Defaults.port
    ensures forall j :: LastAssigns(args, k, PortFlag, j) ==>
              JavaInts.ParseInt(args[j + 1]) == Some(ScanTo(args, k).value.config.port)
  {
    if k > 0 {
      ScanToPort(args, k - 1);
      var prev := ScanTo(args, k - 1).value;
      var st := ScanTo(args, k).value;
      assert Step(args, k - 1, prev) == Success(st);
      forall j | LastAssigns(args, k, PortFlag, j) && j < k - 1
        ensures LastAssigns(args, k - 1, PortFlag, j) && !Assigns(args, PortFlag, k - 1)
      {
      }
    }
  }

  /** The first argument that throws decides the outcome, whatever
      follows it and whatever `invalidArguments` says by then. */
  lemma ParseFirstFailureWins(args: seq<string>, j: int)
    requires FirstAborts(args, j)
    ensures Parse(args) == Failure(AbortError(args, j))
  {
    ScanToFailure(args, |args|);
  }

  /** With no argument that throws, the arguments are rejected with the
      usage text exactly when some flag value contains `--`. */
  lemma ParseWithoutAborts(args: seq<string>)
    requires NoAborts(args)
    ensures Parse(args).Failure? <==> exists j :: 0 <= j < |args| && Marks(args, j)
    ensures Parse(args).Failure? ==> Parse(args) == Failure(Usage)
  {
    ScanToFailure(args, |args|);
    if ScanTo(args, |args|).Success? {
      ScanToInvalid(args, |args|);
    }
  }

  /** A flag in the last position with nothing thrown before it is a usage
      error. */
  lemma ParseTrailingFlag(args: seq<string>)
    requires 0 < |args| && IsFlag(args[|args| - 1])
    requires forall j :: 0 <= j < |args| - 1 ==> !Aborts(args, j)
    ensures Parse(args) == Failure(Usage)
  {
    ParseFirstFailureWins(args, |args| - 1);
  }

  /** A flag value containing `--` makes the arguments invalid: the result
      is an error, and it is the usage error unless some argument throws. */
  lemma ParseDoubleDashValue(args: seq<string>, j: int)
    requires Marks(args, j)
    ensures Parse(args).Failure?
    ensures NoAborts(args) ==> Parse(args) == Failure(Usage)
  {
    ScanToFailure(args, |args|);
    if ScanTo(args, |args|).Success? {
      ScanToInvalid(args, |args|);
    }
  }

  /** An accepted command line sets each setting from the last occurrence of
      its flag that assigns it, or leaves the default when there is none. */
  lemma ParseLastOccurrenceWins(args: seq<string>)
    requires Parse(args).Success?
    ensures NoAborts(args)
    ensures forall j :: 0 <= j < |args| ==> !Marks(args, j)
    ensures NeverAssigns(args, |args|, HostFlag) ==> Parse(args).value.host == Defaults.host
    ensures forall j :: LastAssigns(args, |args|, HostFlag, j) ==> Parse(args).value.host == args[j + 1]
    ensures NeverAssigns(args, |args|, PasswordFlag) ==> Parse(args).value.password == Defaults.password
    ensures forall j :: LastAssigns(args, |args|, PasswordFlag, j) ==> Parse(args).value.password == args[j + 1]
    ensures NeverAssigns(args, |args|, PortFlag) ==> Parse(args).value.port == Defaults.port
    ensures forall j :: LastAssigns(args, |args|, PortFlag, j) ==>
              JavaInts.ParseInt(args[j + 1]) == Some(Parse(args).value.port)
  {
    ScanToFailure(args, |args|);
    ScanToInvalid(args, |args|);
    ScanToText(args, |args|, HostFlag);
    ScanToText(args, |args|, PasswordFlag);
    ScanToPort(args, |args|);
  }

  /** A flag that never appears keeps its default. */
  lemma ParseUnmentionedDefaults(args: seq<string>)
    requires Parse(args).Success?
    ensures HostFlag !in args ==> Parse(args).value.host == Defaults.host
    ensures PortFlag !in args ==> Parse(args).value.port == Defaults.port
    ensures PasswordFlag !in args ==> Parse(args).value.password == Defaults.password
  {
    ParseLastOccurrenceWins(args);
  }

  /** `--port` followed by a value without `--`: a valid `int` becomes the
      port, anything else is the separate number error, not the usage path. */
  lemma ParsePortValue(s: string)
    requires !HasDoubleDash(s)
    ensures JavaInts.ParseInt(s).Some? ==> Parse([PortFlag, s]) == Success(Defaults.(port := JavaInts.ParseInt(s).value))
    ensures JavaInts.ParseInt(s).None? ==> Parse([PortFlag, s]) == Failure(BadNumber(s))
  {
    var args := [PortFlag, s];
    assert !IsFlag(s) by {
      assert HostFlag[0] == '-' && HostFlag[1] == '-';
      assert PortFlag[0] == '-' && PortFlag[1] == '-';
      assert PasswordFlag[0] == '-' && PasswordFlag[1] == '-';
    }
    assert ScanTo(args, 1) == Step(args, 0, Scan(Defaults, false));
  }

  /** Every `int` written in decimal is accepted as the port. */
  lemma ParsePortNumber(n: int)
    requires JavaInts.InRange(n)
    ensures Parse([PortFlag, JavaInts.IntToString(n)]) == Success(Defaults.(port := n))
  {
    var s := JavaInts.IntToString(n);
    JavaInts.ParseIntToString(n);
    ParsePortValue(s);
  }

  /** The value after a flag is not skipped: here `--port` is first the
      (invalid) value of `--host` and then a flag of its own, whose
      non-numeric value throws before the invalid flag is consulted. */
  lemma ValueIsNotSkipped()
    ensures Parse([HostFlag, PortFlag, "abc"]) == Failure(BadNumber("abc"))
  {
    var args := [HostFlag, PortFlag, "abc"];
    assert HasDoubleDash(PortFlag) by {
      assert PortFlag[0] == '-' && PortFlag[1] == '-';
    }
    assert !HasDoubleDash("abc") by {
      assert "abc"[0] != '-' && "abc"[1] != '-';
    }
    assert JavaInts.ParseInt("abc").None? by {
      assert !JavaInts.IsDigit("abc"[0]);
    }
    assert ScanTo(args, 1) == Success(Scan(Defaults, true));
    assert ScanTo(args, 2) == Failure(BadNumber("abc"));
  }
}
