/**
 * The decision rules of the scaffolding console commands
 * (`AbstractConsoleCommand` and `PackageableObjectConsoleCommand`): where
 * the destination directory comes from, how a handle is chosen and
 * validated, whether the object is wrapped in a package, and the directory
 * the object is finally written to. Console prompts are inputs: `answer`
 * parameters stand for what the user typed or accepted as the default.
 */
module ConsoleCommand {
  import opened Wrappers
  import opened PhpString

  // ---------------------------------------------------------------------------
  // Options and prompts
  // ---------------------------------------------------------------------------

  /**
   * `if (! $x = $input->getOption(...)) { $x = <prompt> }`: the option when
   * it is given and truthy, the prompt's answer otherwise.
   */
  function OptionOrAnswer(option: Option<string>, answer: string): (r: string)
    ensures option.Some? && Truthy(option.value) ==> r == option.value
    ensures option.None? || !Truthy(option.value) ==> r == answer
  {
    if option.Some? && Truthy(option.value) then option.value else answer
  }

  // ---------------------------------------------------------------------------
  // The destination directory
  // ---------------------------------------------------------------------------

  /**
   * The first part of `execute`: a truthy `path` argument is resolved with
   * `realpath` and makes the working directory `generic`; without one the
   * object's install path is used and the working-directory type is kept.
   * A directory that is not writable is refused. Yields the directory and
   * the working-directory type from then on.
   */
  function ResolveDestination(pathArg: Option<string>, realpath: string -> string, installPath: string,
                              wdType: string, writable: string -> bool): (r: Result<(string, string), Exception>)
    ensures var dest := if pathArg.Some? && Truthy(pathArg.value) then realpath(pathArg.value) else installPath;
            && (r.Failure? <==> !writable(dest))
            && (r.Failure? ==> r.error == InvalidArgumentException("The path [" + dest + "] is not writable."))
            && (r.Success? ==> r.value.0 == dest)
    ensures r.Success? && pathArg.Some? && Truthy(pathArg.value) ==> r.value.1 == "generic"
    ensures r.Success? && (pathArg.None? || !Truthy(pathArg.value)) ==> r.value.1 == wdType
  {
    var (dest, wd) :=
      if pathArg.Some? && Truthy(pathArg.value) then (realpath(pathArg.value), "generic")
      else (installPath, wdType);
    if !writable(dest) then Failure(InvalidArgumentException("The path [" + dest + "] is not writable."))
    else Success((dest, wd))
  }

  // ---------------------------------------------------------------------------
  // The handle
  // ---------------------------------------------------------------------------

  /** A character the pattern `/[a-z_-]/i` matches: an ASCII letter of either case, `_` or `-`. */
  predicate IsHandleChar(c: char) {
    ('a' <= c <= 'z') || ('A' <= c <= 'Z') || c == '_' || c == '-'
  }

  /** Every character of `h` is a letter, `_` or `-`. */
  predicate ValidHandle(h: string) {
    forall i :: 0 <= i < |h| ==> IsHandleChar(h[i])
  }

  /** `preg_replace('/[a-z_-]/i', '', $handle)`: the characters left in order once every match is deleted. */
  function HandleResidue(h: string): (r: string)
    ensures |r| <= |h|
    ensures forall i :: 0 <= i < |r| ==> !IsHandleChar(r[i])
    decreases |h|
  {
    if |h| == 0 then ""
    else if IsHandleChar(h[0]) then HandleResidue(h[1..])
    else [h[0]] + HandleResidue(h[1..])
  }

  /** Nothing is left over exactly when every character is a letter, `_` or `-`. */
  lemma {:induction false} ResidueEmptyIff(h: string)
    ensures HandleResidue(h) == "" <==> ValidHandle(h)
    decreases |h|
  {
    if |h| > 0 {
      ResidueEmptyIff(h[1..]);
      assert ValidHandle(h) <==> IsHandleChar(h[0]) && ValidHandle(h[1..]) by {
        assert forall i :: 0 < i < |h| ==> h[i] == h[1..][i - 1];
      }
    }
  }

  const HandleMessage := "The handle must only contain letters, underscores and hypens."

  /**
   * The check as written: the handle is refused iff the residue is truthy,
   * so a residue of exactly `"0"` slips through.
   */
  function ValidateHandleAsWritten(h: string): (r: Result<string, Exception>)
    ensures r.Failure? <==> Truthy(HandleResidue(h))
    ensures r.Failure? ==> r.error == RuntimeException(HandleMessage)
    ensures r.Success? ==> r.value == h
  {
    if Truthy(HandleResidue(h)) then Failure(RuntimeException(HandleMessage)) else Success(h)
  }

  /** The check the message describes: any character other than a letter, `_` or `-` is refused. */
  function ValidateHandle(h: string): (r: Result<string, Exception>)
    ensures r.Success? <==> ValidHandle(h)
    ensures r.Failure? ==> r.error == RuntimeException(HandleMessage)
    ensures r.Success? ==> r.value == h
  {
    ResidueEmptyIff(h);
    if HandleResidue(h) != "" then Failure(RuntimeException(HandleMessage)) else Success(h)
  }

  /** The two checks disagree exactly on handles whose residue is the single digit `0`. */
  lemma AsWrittenDiffersOnlyOnZero(h: string)
    ensures ValidateHandleAsWritten(h).Success? != ValidateHandle(h).Success? <==> HandleResidue(h) == "0"
  {
    ResidueEmptyIff(h);
  }

  /** `my0` passes the check as written although `0` is not a letter, `_` or `-`. */
  lemma ZeroResidueAccepted()
    ensures ValidateHandleAsWritten("my0").Success?
    ensures !ValidHandle("my0") && ValidateHandle("my0").Failure?
  {
    assert HandleResidue("0") == "0";
    assert HandleResidue("y0") == "0";
    assert !IsHandleChar("my0"[2]);
  }

  /** `my_pkg` passes both checks; `my pkg`, `a1` and `00` fail both. */
  lemma HandleExamples()
    ensures ValidateHandle("my_pkg").Success? && ValidateHandleAsWritten("my_pkg").Success?
    ensures ValidateHandle("my pkg").Failure? && ValidateHandleAsWritten("my pkg").Failure?
    ensures ValidateHandle("a1").Failure? && ValidateHandleAsWritten("a1").Failure?
    ensures ValidateHandle("00").Failure? && ValidateHandleAsWritten("00").Failure?
  {
    assert HandleResidue("g") == "";
    assert HandleResidue("kg") == "";
    assert HandleResidue("pkg") == "";
    assert HandleResidue("_pkg") == "";
    assert HandleResidue("y_pkg") == "";
    assert HandleResidue(" pkg") == " ";
    assert HandleResidue("y pkg") == " ";
    assert HandleResidue("1") == "1";
    assert HandleResidue("0") == "0";
    assert HandleResidue("00") == "00";
  }

  /**
   * The handle question of `askQuestions`: the `--handle` option when truthy,
   * the answer otherwise, and the one validation applied to either.
   */
  function AskHandle(option: Option<string>, answer: string): (r: Result<string, Exception>)
    ensures option.Some? && Truthy(option.value) ==> (r.Success? <==> ValidHandle(option.value))
    ensures option.None? || !Truthy(option.value) ==> (r.Success? <==> ValidHandle(answer))
    ensures r.Success? ==> r.value == OptionOrAnswer(option, answer) && ValidHandle(r.value)
    ensures r.Failure? ==> r.error == RuntimeException(HandleMessage)
  {
    ValidateHandle(OptionOrAnswer(option, answer))
  }

  // ---------------------------------------------------------------------------
  // The object's directory
  // ---------------------------------------------------------------------------

  /** `generateDestinationPath` of the base command: the handle as a new directory under the destination. */
  function GenerateDestinationPath(dest: string, sep: char, handle: string): (r: string)
    ensures sep !in handle ==> Explode(r, sep) == Explode(dest, sep) + [handle]
  {
    ExplodeAppend(dest, handle, sep);
    if sep in handle then dest + [sep] + handle
    else
      ExplodeNoSep(handle, sep);
      dest + [sep] + handle
  }

  /** A valid handle never holds a path separator, so it is always the last directory of the path. */
  lemma ValidHandleIsLastDirectory(dest: string, sep: char, handle: string)
    requires ValidHandle(handle) && !IsHandleChar(sep)
    ensures LastSegment(GenerateDestinationPath(dest, sep, handle), sep) == handle
  {
    assert sep !in handle;
    LastSegmentAfterSep(dest, handle, sep);
  }

  // ---------------------------------------------------------------------------
  // Packaging an object
  // ---------------------------------------------------------------------------

  /** Whether the object is packaged, and whether the user was asked. */
  datatype PackageDecision = PackageDecision(packageObject: bool, prompted: bool)

  /** The working-directory types in which packaging is offered. */
  predicate PackagingOffered(wdType: string) {
    wdType == "generic" || wdType == "concrete"
  }

  /**
   * `askQuestions` of a packageable object: outside a generic or concrete
   * working directory the object is never packaged and nothing is asked;
   * inside one, `--package` on the command line packages it without asking,
   * and otherwise the user's confirmation decides.
   */
  function DecidePackaging(wdType: string, argv: seq<string>, answer: bool): (r: PackageDecision)
    ensures r.prompted <==> PackagingOffered(wdType) && "--package" !in argv
    ensures r.packageObject <==> PackagingOffered(wdType) && ("--package" in argv || answer)
  {
    if !PackagingOffered(wdType) then PackageDecision(false, false)
    else if "--package" in argv then PackageDecision(true, false)
    else PackageDecision(answer, true)
  }

  /**
   * `generateDestinationPath` of a packageable object: a packaged object
   * gets a `<handle>_package` directory, under the package install path in
   * a concrete installation and under the destination otherwise; an
   * unpackaged one is placed as by the base command.
   */
  function PackagedDestinationPath(packageObject: bool, wdType: string, packageInstallPath: string,
                                   dest: string, sep: char, handle: string): (r: string)
    ensures !packageObject ==> r == GenerateDestinationPath(dest, sep, handle)
    ensures packageObject && wdType == "concrete" ==> StartsWith(r, packageInstallPath + [sep])
    ensures packageObject && wdType != "concrete" ==> StartsWith(r, dest + [sep])
    ensures packageObject && sep !in handle + "_package" ==>
              Explode(r, sep) == Explode(if wdType == "concrete" then packageInstallPath else dest, sep)
                                 + [handle + "_package"]
    ensures sep !in handle + "_package" ==>
              LastSegment(r, sep) == if packageObject then handle + "_package" else handle
  {
    var base := if packageObject && wdType == "concrete" then packageInstallPath else dest;
    var leaf := if packageObject then handle + "_package" else handle;
    LeafAfterSeparator(base, sep, leaf);
    SuffixFree(handle, "_package", sep);
    ExplodeAppend(base, leaf, sep);
    if sep in leaf then base + [sep] + leaf
    else
      ExplodeNoSep(leaf, sep);
      base + [sep] + leaf
  }

  /** A separator-free last part is the last segment, and the path starts with the base and the separator. */
  lemma LeafAfterSeparator(base: string, sep: char, leaf: string)
    ensures StartsWith(base + [sep] + leaf, base + [sep])
    ensures sep !in leaf ==> LastSegment(base + [sep] + leaf, sep) == leaf
  {
    assert (base + [sep] + leaf)[..|base + [sep]|] == base + [sep];
    if sep !in leaf {
      LastSegmentAfterSep(base, leaf, sep);
    }
  }

  /** A character absent from a concatenation is absent from both halves, and conversely. */
  lemma SuffixFree(a: string, b: string, c: char)
    ensures c !in a + b <==> c !in a && c !in b
  {
    assert forall i :: 0 <= i < |a| ==> (a + b)[i] == a[i];
    assert forall i :: 0 <= i < |b| ==> (a + b)[|a| + i] == b[i];
  }

  /**
   * `execute` up to the creation command, for a packageable object: resolve
   * and check the destination, ask for and validate the handle, decide on
   * packaging, and form the object's directory. A destination that is not
   * writable is reported before the handle is looked at.
   */
  function PlanPackageableObject(pathArg: Option<string>, realpath: string -> string, installPath: string,
                                 wdType: string, writable: string -> bool,
                                 handleOption: Option<string>, handleAnswer: string,
                                 argv: seq<string>, packageAnswer: bool,
                                 packageInstallPath: string, sep: char): (r: Result<string, Exception>)
    ensures ResolveDestination(pathArg, realpath, installPath, wdType, writable).Failure? ==>
              r == Failure(ResolveDestination(pathArg, realpath, installPath, wdType, writable).error)
    ensures ResolveDestination(pathArg, realpath, installPath, wdType, writable).Success? ==>
              (r.Success? <==> ValidHandle(OptionOrAnswer(handleOption, handleAnswer)))
    ensures r.Success? && !IsHandleChar(sep) ==>
              var h := OptionOrAnswer(handleOption, handleAnswer);
              LastSegment(r.value, sep) == h || LastSegment(r.value, sep) == h + "_package"
  {
    match ResolveDestination(pathArg, realpath, installPath, wdType, writable)
    case Failure(e) => Failure(e)
    case Success((dest, wd)) =>
      match AskHandle(handleOption, handleAnswer)
      case Failure(e) => Failure(e)
      case Success(h) =>
        var decision := DecidePackaging(wd, argv, packageAnswer);
        SuffixFree(h, "_package", sep);
        assert !IsHandleChar(sep) ==> sep !in "_package" by {
          assert forall i :: 0 <= i < |"_package"| ==> IsHandleChar("_package"[i]);
        }
        Success(PackagedDestinationPath(decision.packageObject, wd, packageInstallPath, dest, sep, h))
  }

  /** A path given on the command line always makes packaging available: flagged or asked. */
  lemma ExplicitPathOffersPackaging(pathArg: Option<string>, realpath: string -> string, installPath: string,
                                    wdType: string, writable: string -> bool, argv: seq<string>, answer: bool)
    requires pathArg.Some? && Truthy(pathArg.value)
    requires ResolveDestination(pathArg, realpath, installPath, wdType, writable).Success?
    ensures var wd := ResolveDestination(pathArg, realpath, installPath, wdType, writable).value.1;
            DecidePackaging(wd, argv, answer).prompted || DecidePackaging(wd, argv, answer).packageObject
  {
  }
}
