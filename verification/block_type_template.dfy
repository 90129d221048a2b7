/**
 * `MakeBlockTypeTemplateCommand`: the block types a template can be made
 * for, which one is chosen, the directory it is taken from, and where the
 * template goes. Directory listings are inputs; a block directory is a path
 * whose last `sep`-separated part is the block type's name.
 */
module BlockTypeTemplate {
  import opened Wrappers
  import opened PhpString
  import opened PhpArray
  import opened ConsoleCommand

  const NoConcreteMessage := "To create block templates you must run this command within a concrete5 installation directory."

  /** `empty($concretePath)`: there is no concrete5 core path, or it is falsy. */
  predicate NoConcretePath(concretePath: Option<string>) {
    concretePath.None? || !Truthy(concretePath.value)
  }

  // ---------------------------------------------------------------------------
  // The block types on offer
  // ---------------------------------------------------------------------------

  /** The listings of the package block directories, one after another. */
  function Flatten(listings: seq<seq<string>>): (r: seq<string>)
    ensures forall k, b :: 0 <= k < |listings| && b in listings[k] ==> b in r
    ensures forall b :: b in r ==> exists k :: 0 <= k < |listings| && b in listings[k]
    decreases |listings|
  {
    if |listings| == 0 then [] else listings[0] + Flatten(listings[1..])
  }

  /**
   * The block directories in the order they are scanned: the application's,
   * then the core's, then those of each package that has a `blocks` directory.
   */
  function ScanOrder(app: seq<string>, core: seq<string>, packages: seq<seq<string>>): (r: seq<string>)
    ensures |r| >= |app| + |core|
    ensures r[..|app|] == app
    ensures r[|app|..|app| + |core|] == core
    ensures r[|app| + |core|..] == Flatten(packages)
  {
    app + core + Flatten(packages)
  }

  /** `'core_' !== substr($name, 0, 5) && 'dashboard_' !== substr($name, 0, 10)`. */
  predicate Offered(name: string) {
    SubstrPrefix(name, 5) != "core_" && SubstrPrefix(name, 10) != "dashboard_"
  }

  /** A name is offered iff it starts neither with `core_` nor with `dashboard_`. */
  lemma OfferedIff(name: string)
    ensures Offered(name) <==> !StartsWith(name, "core_") && !StartsWith(name, "dashboard_")
  {
  }

  /**
   * The `$blocks` array built by the scan: every offered block directory,
   * keyed by its path and holding its name, in scan order.
   */
  function Collect(listing: seq<string>, sep: char): (r: PhpArray<string>)
    ensures forall x :: x in r ==> x.1 == LastSegment(x.0, sep) && Offered(x.1) && x.0 in listing
    decreases |listing|
  {
    if |listing| == 0 then []
    else
      var init := listing[..|listing| - 1];
      var b := listing[|listing| - 1];
      var prev := Collect(init, sep);
      assert forall x :: x in init ==> x in listing;
      PutEntries(prev, b, LastSegment(b, sep));
      if Offered(LastSegment(b, sep)) then ArrayPut(prev, b, LastSegment(b, sep)) else prev
  }

  /** The first block directory in `listing` that is offered and named `name`. */
  function FirstNamed(listing: seq<string>, sep: char, name: string): (r: Option<string>)
    ensures r.Some? ==> r.value in listing && LastSegment(r.value, sep) == name && Offered(name)
    ensures r.None? ==> forall b :: b in listing ==> LastSegment(b, sep) != name || !Offered(name)
    decreases |listing|
  {
    if |listing| == 0 then None
    else if LastSegment(listing[0], sep) == name && Offered(name) then Some(listing[0])
    else
      assert forall b :: b in listing ==> b == listing[0] || b in listing[1..];
      FirstNamed(listing[1..], sep, name)
  }

  /** An earlier listing is searched before a later one. */
  lemma {:induction false} FirstNamedAppend(a: seq<string>, b: seq<string>, sep: char, name: string)
    ensures FirstNamed(a + b, sep, name) == if FirstNamed(a, sep, name).Some? then FirstNamed(a, sep, name) else FirstNamed(b, sep, name)
    decreases |a|
  {
    if |a| > 0 {
      assert (a + b)[0] == a[0];
      assert (a + b)[1..] == a[1..] + b;
      FirstNamedAppend(a[1..], b, sep, name);
    } else {
      assert a + b == b;
    }
  }

  /**
   * Looking a name up in the scanned array finds the first block directory
   * with that name in scan order, whatever directories follow.
   */
  lemma {:induction false} CollectFindsFirst(listing: seq<string>, sep: char, name: string)
    ensures ArraySearch(Collect(listing, sep), name) == FirstNamed(listing, sep, name)
    decreases |listing|
  {
    if |listing| > 0 {
      var init := listing[..|listing| - 1];
      var b := listing[|listing| - 1];
      assert listing == init + [b];
      var prev := Collect(init, sep);
      CollectFindsFirst(init, sep, name);
      FirstNamedAppend(init, [b], sep, name);
      var n := LastSegment(b, sep);
      if Offered(n) {
        if exists i :: KeyAt(prev, b, i) {
          PutSameValue(prev, b, n);
          var i :| KeyAt(prev, b, i);
          assert prev[i].0 in init;
        } else {
          assert ArrayPut(prev, b, n) == prev + [(b, n)];
          SearchSnoc(prev, b, n, name);
        }
      }
    }
  }

  /** A name offered by the application's blocks is found there, whatever the core and the packages hold. */
  lemma ApplicationShadowsCore(app: seq<string>, core: seq<string>, packages: seq<seq<string>>, sep: char, name: string)
    requires FirstNamed(app, sep, name).Some?
    ensures ArraySearch(ArrayUnique(Collect(ScanOrder(app, core, packages), sep)), name) == FirstNamed(app, sep, name)
  {
    var rest := core + Flatten(packages);
    var listing := ScanOrder(app, core, packages);
    assert listing == app + rest;
    SearchUnique(Collect(listing, sep), name);
    CollectFindsFirst(listing, sep, name);
    FirstNamedAppend(app, rest, sep, name);
  }

  /** Names beginning with `core_` or `dashboard_` are never offered, wherever their directory is. */
  lemma ReservedNamesNeverOffered(listing: seq<string>, sep: char, name: string)
    requires StartsWith(name, "core_") || StartsWith(name, "dashboard_")
    ensures !InArray(ArrayUnique(Collect(listing, sep)), name)
  {
    OfferedIff(name);
    var blocks := ArrayUnique(Collect(listing, sep));
    forall j | 0 <= j < |blocks|
      ensures blocks[j].1 != name
    {
      assert blocks[j] in Collect(listing, sep);
    }
  }

  // ---------------------------------------------------------------------------
  // Choosing the block type and the template
  // ---------------------------------------------------------------------------

  /**
   * The block type asked for: inside a `block_type` working directory, the
   * last `/`-separated part of the working directory; elsewhere the
   * `--block-type` option when truthy, the user's choice otherwise.
   */
  function ChosenBlockType(wdType: string, cwd: string, option: Option<string>, choice: string): (r: string)
    ensures wdType == "block_type" ==> '/' !in r && LastSegment(cwd, '/') == r
    ensures wdType != "block_type" ==> r == OptionOrAnswer(option, choice)
  {
    if wdType != "block_type" then OptionOrAnswer(option, choice) else LastSegment(cwd, '/')
  }

  /** The parameters the questions collect; the handle is the slugged name as well. */
  datatype TemplateParams = TemplateParams(blockType: string, blockTypePath: string, name: string, handle: string)

  /**
   * `askQuestions`: refuse to run without a concrete5 core; scan the block
   * directories; take the block type; refuse one that is not on offer;
   * record the directory it was found in; slug the template name with `_`.
   * `slug` stands for Laravel's `Str::slug($name, '_')`.
   */
  function AskQuestions(concretePath: Option<string>, app: seq<string>, core: seq<string>, packages: seq<seq<string>>,
                        sep: char, wdType: string, cwd: string, blockTypeOption: Option<string>, blockTypeChoice: string,
                        nameOption: Option<string>, nameAnswer: string, slug: string -> string): (r: Result<TemplateParams, Exception>)
    ensures NoConcretePath(concretePath) ==> r == Failure(GenericException(NoConcreteMessage))
    ensures !NoConcretePath(concretePath) ==>
              var bt := ChosenBlockType(wdType, cwd, blockTypeOption, blockTypeChoice);
              && (r.Failure? <==> FirstNamed(ScanOrder(app, core, packages), sep, bt).None?)
              && (r.Failure? ==> r.error == InvalidArgumentException("The block type [" + bt + "] could not be found."))
              && (r.Success? ==> r.value.blockType == bt)
    ensures r.Success? ==> FirstNamed(ScanOrder(app, core, packages), sep, r.value.blockType) == Some(r.value.blockTypePath)
    ensures r.Success? ==> LastSegment(r.value.blockTypePath, sep) == r.value.blockType && Offered(r.value.blockType)
    ensures r.Success? ==> r.value.name == slug(OptionOrAnswer(nameOption, nameAnswer)) && r.value.handle == r.value.name
  {
    if NoConcretePath(concretePath) then Failure(GenericException(NoConcreteMessage))
    else
      var listing := ScanOrder(app, core, packages);
      var blocks := ArrayUnique(Collect(listing, sep));
      var bt := ChosenBlockType(wdType, cwd, blockTypeOption, blockTypeChoice);
      SearchUnique(Collect(listing, sep), bt);
      CollectFindsFirst(listing, sep, bt);
      if !InArray(blocks, bt) then
        Failure(InvalidArgumentException("The block type [" + bt + "] could not be found."))
      else
        var path := ArraySearch(blocks, bt).value;
        var name := slug(OptionOrAnswer(nameOption, nameAnswer));
        Success(TemplateParams(bt, path, name, name))
  }

  /** In a block type's own directory, that block type is templated, if it is on offer. */
  lemma WorkingDirectoryNamesBlockType(concretePath: Option<string>, app: seq<string>, core: seq<string>,
                                       packages: seq<seq<string>>, sep: char, cwd: string,
                                       blockTypeOption: Option<string>, blockTypeChoice: string,
                                       nameOption: Option<string>, nameAnswer: string, slug: string -> string)
    requires !NoConcretePath(concretePath)
    ensures var r := AskQuestions(concretePath, app, core, packages, sep, "block_type", cwd, blockTypeOption,
                                  blockTypeChoice, nameOption, nameAnswer, slug);
            r.Success? <==> FirstNamed(ScanOrder(app, core, packages), sep, LastSegment(cwd, '/')).Some?
  {
  }

  /** `generateDestinationPath`: `<destination>/<block type>/<template directory>/<name>`. */
  function TemplateDestination(dest: string, blockType: string, templatePath: string, name: string): (r: string)
    ensures '/' !in blockType && '/' !in templatePath && '/' !in name ==>
              Explode(r, '/') == Explode(dest, '/') + [blockType, templatePath, name]
  {
    var a := dest + "/" + blockType;
    var b := a + "/" + templatePath;
    ExplodeAppend(dest, blockType, '/');
    ExplodeAppend(a, templatePath, '/');
    ExplodeAppend(b, name, '/');
    if '/' in blockType || '/' in templatePath || '/' in name then b + "/" + name
    else
      ExplodeNoSep(blockType, '/');
      ExplodeNoSep(templatePath, '/');
      ExplodeNoSep(name, '/');
      b + "/" + name
  }
}
