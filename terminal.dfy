/**
  POST /api/terminal (code-server/file-server.js): the working directory goes
  through `safePath`, the command runs through `execSync`, and whatever
  happens the response has status 200 and a text body. Running the command is
  not modelled: its outcome is supplied by the parameter `exec`.
*/
module Terminal {
  import opened Wrappers
  import opened Paths
  import opened SafePaths
  import opened Http

  /**
    How the `try` block ends: `execSync` returned its captured stdout, or
    something threw an error whose `stderr` and `stdout` are set when
    `execSync` threw it and absent when `safePath` did.
  */
  datatype Outcome =
    | Finished(output: string)
    | Threw(stderr: Option<string>, stdout: Option<string>, message: string)

  /** JavaScript truthiness of an optional string: present and non-empty. */
  predicate Truthy(s: Option<string>) {
    s.Some? && s.value != ""
  }

  /** `e.stderr || e.stdout || e.message`. */
  function ErrorText(stderr: Option<string>, stdout: Option<string>, message: string): string {
    if Truthy(stderr) then stderr.value
    else if Truthy(stdout) then stdout.value
    else message
  }

  /** The outcome of the `try` block for the query parameter `cwd` and the body `command`. */
  function Run(cwd: Param, command: string, exec: (string, string) -> Outcome): Outcome {
    match SafePath(OrEmpty(cwd))
    case Err(e) => Threw(None, None, ErrorMessage(e))
    case Ok(dir) => exec(dir, command)
  }

  /** The response of the handler: always status 200 with text. */
  function Respond(o: Outcome): (r: Response)
    ensures Status(r) == 200 && r.Text?
  {
    match o
    case Finished(out) => Text(out)
    case Threw(err, out, msg) => Text(ErrorText(err, out, msg))
  }

  function Handle(cwd: Param, command: string, exec: (string, string) -> Outcome): (r: Response)
    ensures Status(r) == 200 && r.Text?
  {
    Respond(Run(cwd, command, exec))
  }

  // ---------------------------------------------------------------------------

  /**
    The error text is the first non-empty of stderr, stdout and message; it
    is empty only when all three are.
  */
  lemma ErrorTextFirstNonEmpty(stderr: Option<string>, stdout: Option<string>, message: string)
    ensures var t := ErrorText(stderr, stdout, message);
            && (Truthy(stderr) ==> t == stderr.value)
            && (!Truthy(stderr) && Truthy(stdout) ==> t == stdout.value)
            && (!Truthy(stderr) && !Truthy(stdout) ==> t == message)
            && (t == "" <==> !Truthy(stderr) && !Truthy(stdout) && message == "")
  {
  }

  /** A successful command answers with its captured stdout. */
  lemma SuccessIsStdout(cwd: Param, command: string, exec: (string, string) -> Outcome)
    requires SafePath(cwd).Ok? && exec(SafePath(cwd).value, command).Finished?
    ensures Handle(cwd, command, exec) == Text(exec(SafePath(cwd).value, command).output)
  {
    assert OrEmpty(cwd) == cwd || cwd == Absent;
    EmptyIsBase();
  }

  /** A rejected `cwd` answers "Access denied" with status 200, whatever the command would have done. */
  lemma RejectedCwd(cwd: Param, command: string, exec: (string, string) -> Outcome)
    requires SafePath(cwd).Err? && !cwd.NonString?
    ensures Handle(cwd, command, exec) == Text("Access denied")
    ensures Status(Handle(cwd, command, exec)) == 200
  {
    EmptyIsBase();
  }

  /** A missing `cwd` runs the command in BASE. */
  lemma AbsentCwdRunsInBase(command: string, exec: (string, string) -> Outcome)
    ensures Run(Absent, command, exec) == exec(BASE, command)
  {
    EmptyIsBase();
  }

  /** Climbing out of the workspace through `cwd` never reaches `execSync`. */
  lemma EscapingCwdDenied(command: string, exec: (string, string) -> Outcome)
    ensures Handle(Given("../../etc/passwd"), command, exec) == Text("Access denied")
  {
    EscapeRejected();
  }
}
