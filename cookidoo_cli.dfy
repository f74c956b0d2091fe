/**
 * Credential resolution of the Cookidoo command-line client.
 *
 * The account email and password are read from the environment variables
 * COOKIDOO_EMAIL and COOKIDOO_PASSWORD. If either is unset or empty, the lines
 * of a KEY=VALUE file are scanned; a line that starts with `COOKIDOO_EMAIL=`
 * or `COOKIDOO_PASSWORD=` assigns the stripped text after its first `=` to
 * that field, the last such line winning. Resolution fails unless both fields
 * end up non-empty.
 *
 * The environment is a map from variable name to value; the file is given as
 * its lines, `None` when it does not exist.
 */
module CookidooCli {
  import opened Wrappers
  import opened PyStr

  const EmailVar: string := "COOKIDOO_EMAIL"
  const PasswordVar: string := "COOKIDOO_PASSWORD"

  /** The two credentials the client needs to log in. */
  datatype Credentials = Credentials(email: string, password: string) {
    function Of(f: Field): string {
      match f
      case Email => email
      case Password => password
    }
  }

  /** The single failure: email or password could not be resolved (the diagnostic and `exit(1)`). */
  datatype CredentialError = MissingCredentials

  /** The two credential fields, each named by one variable. */
  datatype Field = Email | Password {
    function VarName(): string {
      match this
      case Email => EmailVar
      case Password => PasswordVar
    }

    /** The text a file line must start with to assign this field. */
    function Prefix(): string {
      match this
      case Email => "COOKIDOO_EMAIL="
      case Password => "COOKIDOO_PASSWORD="
    }
  }

  /** The resolver's two local variables; `None` stands for Python's `None`. */
  datatype Fields = Fields(email: Option<string>, password: Option<string>) {
    function Get(f: Field): Option<string> {
      match f
      case Email => email
      case Password => password
    }

    function Set(f: Field, v: Option<string>): Fields {
      match f
      case Email => this.(email := v)
      case Password => this.(password := v)
    }
  }

  /** `os.environ.get(name)`. */
  function EnvGet(env: map<string, string>, name: string): Option<string> {
    if name in env then Some(env[name]) else None
  }

  /** Python truthiness of an optional string: neither `None` nor `""`. */
  predicate Present(v: Option<string>) {
    v.Some? && v.value != ""
  }

  /** Both fields as the environment gives them. */
  function FromEnvironment(env: map<string, string>): Fields {
    Fields(EnvGet(env, EmailVar), EnvGet(env, PasswordVar))
  }

  /** The file is consulted when either field is unset or empty. */
  predicate NeedsFallback(fs: Fields) {
    !Present(fs.email) || !Present(fs.password)
  }

  /** The line assigns field `f`. */
  predicate Assigns(line: string, f: Field) {
    StartsWith(line, f.Prefix())
  }

  /**
   * A line that starts with a field's prefix contains `=`, and splitting it
   * once at `=` gives the variable name and everything after the prefix,
   * later `=` characters included.
   */
  lemma AssigningLineSplits(line: string, f: Field)
    requires Assigns(line, f)
    ensures '=' in line
    ensures SplitOnce(line, '=') == [f.VarName(), line[|f.Prefix()|..]]
  {
    var key := f.VarName();
    StartsWithSlice(line, f.Prefix());
    assert line == key + ['='] + line[|f.Prefix()|..];
    assert '=' !in key;
    SplitOnceAt(line, '=', key, line[|f.Prefix()|..]);
  }

  /** The value a line assigns to field `f`: the stripped text after its prefix. */
  function AssignedValue(line: string, f: Field): string
    requires Assigns(line, f)
  {
    Strip(line[|f.Prefix()|..])
  }

  /**
   * One iteration of the scan: the `if`/`elif` on the two prefixes. The
   * source takes the value as `line.split("=", 1)[1].strip()`;
   * AssigningLineSplits shows that this is the text after the prefix.
   */
  function ApplyLine(fs: Fields, line: string): Fields {
    if Assigns(line, Email) then fs.(email := Some(AssignedValue(line, Email)))
    else if Assigns(line, Password) then fs.(password := Some(AssignedValue(line, Password)))
    else fs
  }

  /** The fields after scanning the first `n` of `lines` in order, starting from `fs`. */
  function ScanFirst(fs: Fields, lines: seq<string>, n: nat): Fields
    requires n <= |lines|
  {
    if n == 0 then fs else ApplyLine(ScanFirst(fs, lines, n - 1), lines[n - 1])
  }

  /** The fields after scanning every line of the file. */
  function ScanLines(fs: Fields, lines: seq<string>): Fields {
    ScanFirst(fs, lines, |lines|)
  }

  /** The final check: both fields present, or failure. */
  function Decide(fs: Fields): Result<Credentials, CredentialError> {
    if Present(fs.email) && Present(fs.password) then
      Success(Credentials(fs.email.value, fs.password.value))
    else
      Failure(MissingCredentials)
  }

  /** The outcome of `get_credentials` for an environment and an optional file. */
  function Resolve(env: map<string, string>, file: Option<seq<string>>): (r: Result<Credentials, CredentialError>)
    ensures r.Success? ==> r.value.email != "" && r.value.password != ""
  {
    var start := FromEnvironment(env);
    if NeedsFallback(start) && file.Some? then Decide(ScanLines(start, file.value))
    else Decide(start)
  }

  /**
   * `get_credentials`: look both variables up, scan the file when either is
   * missing, and fail unless both end up non-empty.
   */
  method GetCredentials(env: map<string, string>, file: Option<seq<string>>)
    returns (r: Result<Credentials, CredentialError>)
    ensures r == Resolve(env, file)
  {
    var email := EnvGet(env, EmailVar);
    var password := EnvGet(env, PasswordVar);

    // The file is read only when a variable is missing and the file exists.
    if (!Present(email) || !Present(password)) && file.Some? {
      var lines := file.value;
      for i := 0 to |lines|
        invariant Fields(email, password) == ScanFirst(FromEnvironment(env), lines, i)
      {
        var line := lines[i];
        if Assigns(line, Email) {
          AssigningLineSplits(line, Email);
          email := Some(Strip(SplitOnce(line, '=')[1]));
        } else if Assigns(line, Password) {
          AssigningLineSplits(line, Password);
          password := Some(Strip(SplitOnce(line, '=')[1]));
        }
      }
    }

    if !Present(email) || !Present(password) {
      r := Failure(MissingCredentials);
    } else {
      r := Success(Credentials(email.value, password.value));
    }
  }

  // ---------------------------------------------------------------------
  // Parsing one line
  // ---------------------------------------------------------------------

  /** No line starts with both prefixes, so the `elif` never shadows a match. */
  lemma PrefixesExclusive(line: string)
    ensures !(Assigns(line, Email) && Assigns(line, Password))
  {
    if Assigns(line, Email) {
      StartsWithSlice(line, Email.Prefix());
      StartsWithSlice(line, Password.Prefix());
      assert line[9] == Email.Prefix()[9] == 'E' != Password.Prefix()[9];
    }
  }

  /**
   * A line starting with a field's prefix sets that field to the stripped
   * text after the prefix (every later `=` included) and leaves the other
   * field alone.
   */
  lemma AssigningLine(fs: Fields, line: string, f: Field)
    requires Assigns(line, f)
    ensures ApplyLine(fs, line) == fs.Set(f, Some(Strip(line[|f.Prefix()|..])))
  {
    PrefixesExclusive(line);
  }

  /** A line that does not assign a field leaves that field as it was: an email line never changes the password, and vice versa. */
  lemma UnassignedFieldKept(fs: Fields, line: string, f: Field)
    requires !Assigns(line, f)
    ensures ApplyLine(fs, line).Get(f) == fs.Get(f)
  {
    if Assigns(line, Email) {
      AssigningLine(fs, line, Email);
    } else if Assigns(line, Password) {
      AssigningLine(fs, line, Password);
    }
  }

  /** A line with no `=` at all never assigns a field. */
  lemma LineWithoutSeparatorIgnored(fs: Fields, line: string)
    requires '=' !in line
    ensures ApplyLine(fs, line) == fs
  {
    if Assigns(line, Email) {
      AssigningLineSplits(line, Email);
    } else if Assigns(line, Password) {
      AssigningLineSplits(line, Password);
    }
  }

  // ---------------------------------------------------------------------
  // Scanning the file
  // ---------------------------------------------------------------------

  /** Scanning one more line that assigns `f` sets `f` from that line. */
  lemma ScanStepAssigns(fs: Fields, lines: seq<string>, f: Field, n: nat)
    requires 0 < n <= |lines| && Assigns(lines[n - 1], f)
    ensures ScanFirst(fs, lines, n).Get(f) == Some(Strip(lines[n - 1][|f.Prefix()|..]))
  {
    AssigningLine(ScanFirst(fs, lines, n - 1), lines[n - 1], f);
  }

  /** Scanning one more line that does not assign `f` keeps `f`. */
  lemma ScanStepKeeps(fs: Fields, lines: seq<string>, f: Field, n: nat)
    requires 0 < n <= |lines| && !Assigns(lines[n - 1], f)
    ensures ScanFirst(fs, lines, n).Get(f) == ScanFirst(fs, lines, n - 1).Get(f)
  {
    UnassignedFieldKept(ScanFirst(fs, lines, n - 1), lines[n - 1], f);
  }

  /** Lines `m` up to `n` that do not assign a field leave it as it was after line `m`. */
  lemma {:induction false} ScanKeepsUnassigned(fs: Fields, lines: seq<string>, f: Field, m: nat, n: nat)
    requires m <= n <= |lines|
    requires forall j | m <= j < n :: !Assigns(lines[j], f)
    ensures ScanFirst(fs, lines, n).Get(f) == ScanFirst(fs, lines, m).Get(f)
  {
    if n > m {
      ScanKeepsUnassigned(fs, lines, f, m, n - 1);
      ScanStepKeeps(fs, lines, f, n);
    }
  }

  /**
   * Among the first `n` lines, the last one that assigns a field decides its
   * value: the lines after it that do not assign it keep it.
   */
  lemma ScanLastAssignmentWins(fs: Fields, lines: seq<string>, f: Field, k: nat, n: nat)
    requires k < n <= |lines| && Assigns(lines[k], f)
    requires forall j | k < j < n :: !Assigns(lines[j], f)
    ensures ScanFirst(fs, lines, n).Get(f) == Some(Strip(lines[k][|f.Prefix()|..]))
  {
    ScanStepAssigns(fs, lines, f, k + 1);
    ScanKeepsUnassigned(fs, lines, f, k + 1, n);
  }

  /**
   * The value field `f` holds after the first `n` lines, found without the
   * loop: that of the last of them that assigns `f`, searching backwards from
   * line `n - 1`, or `start` when none does.
   */
  function LastAssignment(start: Option<string>, lines: seq<string>, f: Field, n: nat): Option<string>
    requires n <= |lines|
  {
    if n == 0 then start
    else if Assigns(lines[n - 1], f) then Some(AssignedValue(lines[n - 1], f))
    else LastAssignment(start, lines, f, n - 1)
  }

  /** The value field `f` ends with after the whole file, starting from `start`. */
  function FinalValue(start: Option<string>, lines: seq<string>, f: Field): Option<string> {
    LastAssignment(start, lines, f, |lines|)
  }

  /** The loop computes each field independently: its value is the backward search's. */
  lemma {:induction false} ScanIsLastAssignment(fs: Fields, lines: seq<string>, f: Field, n: nat)
    requires n <= |lines|
    ensures ScanFirst(fs, lines, n).Get(f) == LastAssignment(fs.Get(f), lines, f, n)
  {
    if n > 0 {
      if Assigns(lines[n - 1], f) {
        ScanStepAssigns(fs, lines, f, n);
      } else {
        ScanIsLastAssignment(fs, lines, f, n - 1);
        ScanStepKeeps(fs, lines, f, n);
      }
    }
  }

  // ---------------------------------------------------------------------
  // Resolution
  // ---------------------------------------------------------------------

  /** With both variables set and non-empty, they are the result whatever the file holds. */
  lemma EnvironmentSuffices(env: map<string, string>, file: Option<seq<string>>)
    requires EmailVar in env && env[EmailVar] != ""
    requires PasswordVar in env && env[PasswordVar] != ""
    ensures Resolve(env, file) == Success(Credentials(env[EmailVar], env[PasswordVar]))
  {
  }

  /**
   * The file is consulted exactly when a variable is unset or empty: then the
   * outcome is the final check on the scanned fields, otherwise the file does
   * not matter.
   */
  lemma FallbackExactlyWhenMissing(env: map<string, string>, lines: seq<string>)
    ensures NeedsFallback(FromEnvironment(env)) ==>
      Resolve(env, Some(lines)) == Decide(ScanLines(FromEnvironment(env), lines))
    ensures !NeedsFallback(FromEnvironment(env)) ==>
      Resolve(env, Some(lines)) == Resolve(env, None)
  {
  }

  /**
   * For every file, once it is consulted: each field is the value of its last
   * assigning line, or the environment's when no line assigns it, and
   * resolution succeeds exactly when both of those are non-empty.
   */
  lemma FallbackResult(env: map<string, string>, lines: seq<string>)
    requires NeedsFallback(FromEnvironment(env))
    ensures var email := FinalValue(EnvGet(env, EmailVar), lines, Email);
      var password := FinalValue(EnvGet(env, PasswordVar), lines, Password);
      && (Resolve(env, Some(lines)).Success? <==> Present(email) && Present(password))
      && Resolve(env, Some(lines)) == Decide(Fields(email, password))
  {
    var start := FromEnvironment(env);
    ScanIsLastAssignment(start, lines, Email, |lines|);
    ScanIsLastAssignment(start, lines, Password, |lines|);
    var fs := ScanLines(start, lines);
    assert fs == Fields(fs.Get(Email), fs.Get(Password));
  }

  /** When the file is consulted and the scan leaves both fields non-empty, those two values are the result. */
  lemma FallbackYieldsScannedValues(env: map<string, string>, lines: seq<string>, email: string, password: string)
    requires NeedsFallback(FromEnvironment(env))
    requires ScanLines(FromEnvironment(env), lines) == Fields(Some(email), Some(password))
    requires email != "" && password != ""
    ensures Resolve(env, Some(lines)) == Success(Credentials(email, password))
  {
  }

  /** A variable set to "" counts as missing: the file is consulted, and without a file resolution fails. */
  lemma EmptyVariableIsMissing(env: map<string, string>, file: Option<seq<string>>, f: Field)
    requires f.VarName() in env && env[f.VarName()] == ""
    ensures NeedsFallback(FromEnvironment(env))
    ensures file == None ==> Resolve(env, file) == Failure(MissingCredentials)
  {
  }

  /** A variable missing and no file: resolution fails. */
  lemma NoFileFails(env: map<string, string>)
    requires !Present(EnvGet(env, EmailVar)) || !Present(EnvGet(env, PasswordVar))
    ensures Resolve(env, None) == Failure(MissingCredentials)
  {
  }

  /**
   * Once the file is consulted, the last line assigning a field supplies that
   * field, even a field the environment had already set.
   */
  lemma FileLineOverridesEnvironment(env: map<string, string>, lines: seq<string>, f: Field, k: nat)
    requires NeedsFallback(FromEnvironment(env))
    requires k < |lines| && Assigns(lines[k], f)
    requires forall j | k < j < |lines| :: !Assigns(lines[j], f)
    ensures Resolve(env, Some(lines)).Success? ==>
      Resolve(env, Some(lines)).value.Of(f) == Strip(lines[k][|f.Prefix()|..])
  {
    var fs := ScanLines(FromEnvironment(env), lines);
    ScanLastAssignmentWins(FromEnvironment(env), lines, f, k, |lines|);
    assert fs.Get(f) == Some(Strip(lines[k][|f.Prefix()|..]));
    FallbackExactlyWhenMissing(env, lines);
  }

  /** A last assigning line whose value is only whitespace empties the field, and resolution fails. */
  lemma BlankFileValueFails(env: map<string, string>, lines: seq<string>, f: Field, k: nat)
    requires NeedsFallback(FromEnvironment(env))
    requires k < |lines| && Assigns(lines[k], f)
    requires forall j | k < j < |lines| :: !Assigns(lines[j], f)
    requires AllSpace(lines[k][|f.Prefix()|..])
    ensures Resolve(env, Some(lines)) == Failure(MissingCredentials)
  {
    var fs := ScanLines(FromEnvironment(env), lines);
    ScanLastAssignmentWins(FromEnvironment(env), lines, f, k, |lines|);
    StripSpec(lines[k][|f.Prefix()|..]);
    assert fs.Get(f) == Some("");
    FallbackExactlyWhenMissing(env, lines);
  }

  /** A field the environment leaves unset or empty and no file line assigns stays missing. */
  lemma UnassignedMissingFieldFails(env: map<string, string>, lines: seq<string>, f: Field)
    requires !Present(EnvGet(env, f.VarName()))
    requires forall j | 0 <= j < |lines| :: !Assigns(lines[j], f)
    ensures Resolve(env, Some(lines)) == Failure(MissingCredentials)
  {
    ScanKeepsUnassigned(FromEnvironment(env), lines, f, 0, |lines|);
  }

  // ---------------------------------------------------------------------
  // Worked examples
  // ---------------------------------------------------------------------

  /**
   * Environment password set, no email variable, and a file holding only an
   * email line: the file's email and the environment's password (for instance
   * `COOKIDOO_EMAIL=foo@example.com` with password "secret").
   */
  lemma FileEmailWithEnvironmentPassword(email: string, password: string, lines: seq<string>)
    requires email != [] && !IsSpace(email[0]) && !IsSpace(email[|email| - 1])
    requires password != ""
    requires |lines| == 1 && lines[0] == Email.Prefix() + email
    ensures Resolve(map[PasswordVar := password], Some(lines)) == Success(Credentials(email, password))
  {
    var start := FromEnvironment(map[PasswordVar := password]);
    assert start == Fields(None, Some(password));
    ValueAfterPrefix(Email, email);
    PrefixesExclusive(lines[0]);
    forall j | 0 <= j < |lines| ensures !Assigns(lines[j], Password) {
      assert j == 0;
    }
    ScanLastAssignmentWins(start, lines, Email, 0, |lines|);
    ScanKeepsUnassigned(start, lines, Password, 0, |lines|);
    var fs := ScanLines(start, lines);
    assert fs == Fields(Some(email), Some(password)) by {
      assert fs.email == fs.Get(Email) && fs.password == fs.Get(Password);
    }
    FallbackYieldsScannedValues(map[PasswordVar := password], lines, email, password);
  }

  /**
   * Environment password set, email unset, and a file holding both lines: the
   * file's password replaces the environment's, because once the file is read
   * every matching line overwrites its field.
   */
  lemma FileReplacesEnvironmentPassword(envPassword: string, fileEmail: string, filePassword: string, lines: seq<string>)
    requires envPassword != ""
    requires fileEmail != [] && !IsSpace(fileEmail[0]) && !IsSpace(fileEmail[|fileEmail| - 1])
    requires filePassword != [] && !IsSpace(filePassword[0]) && !IsSpace(filePassword[|filePassword| - 1])
    requires |lines| == 2 && lines[0] == Email.Prefix() + fileEmail && lines[1] == Password.Prefix() + filePassword
    ensures Resolve(map[PasswordVar := envPassword], Some(lines)) == Success(Credentials(fileEmail, filePassword))
  {
    var start := FromEnvironment(map[PasswordVar := envPassword]);
    assert start == Fields(None, Some(envPassword));
    ValueAfterPrefix(Email, fileEmail);
    ValueAfterPrefix(Password, filePassword);
    PrefixesExclusive(lines[1]);
    forall j | 0 < j < |lines| ensures !Assigns(lines[j], Email) {
      assert j == 1;
    }
    ScanLastAssignmentWins(start, lines, Email, 0, |lines|);
    ScanLastAssignmentWins(start, lines, Password, 1, |lines|);
    var fs := ScanLines(start, lines);
    assert fs == Fields(Some(fileEmail), Some(filePassword)) by {
      assert fs.email == fs.Get(Email) && fs.password == fs.Get(Password);
    }
    FallbackYieldsScannedValues(map[PasswordVar := envPassword], lines, fileEmail, filePassword);
  }

  /** A line made of a prefix and a value without surrounding whitespace assigns exactly that value. */
  lemma ValueAfterPrefix(f: Field, v: string)
    requires v != [] && !IsSpace(v[0]) && !IsSpace(v[|v| - 1])
    ensures Assigns(f.Prefix() + v, f)
    ensures Strip((f.Prefix() + v)[|f.Prefix()|..]) == v
  {
    StartsWithSlice(f.Prefix() + v, f.Prefix());
    assert (f.Prefix() + v)[..|f.Prefix()|] == f.Prefix();
    assert (f.Prefix() + v)[|f.Prefix()|..] == [] + v + [];
    StripPadded([], v, []);
  }

}
