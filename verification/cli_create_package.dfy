/**
 * `C5Labs\Cli\Commands\CreatePackageCommand::handle`: builds the substitution
 * table and the tag exclusions of the tagged-region exporter from the
 * command's parameters and options, then exports the package boilerplate.
 */
module CliCreatePackage {
  import opened Wrappers
  import opened PhpString
  import opened PhpArray
  import opened Exclusions
  import opened CliExporter

  /**
   * The command's parameters: the package name, description and handle, the
   * author, the options, and the substitutions given in the options (empty
   * when none are given).
   */
  datatype Command = Command(
    name: string,
    description: string,
    handle: string,
    authorName: string,
    authorEmail: string,
    options: map<string, PhpValue>,
    extraSubstitutions: SubstTable)

  const Controller := "controller.php"
  const DemoHelper := "src/Helpers/DemoHelper.php"
  const DemoHelperProvider := "src/Providers/DemoHelperServiceProvider.php"

  /**
   * The nine default entries, each a global pair, in order. `studly` stands
   * for Laravel's `Str::studly`.
   */
  function DefaultSubstitutions(c: Command, studly: string -> string): (r: SubstTable)
    ensures |r| == 9
    ensures forall k :: 0 <= k < |r| ==> r[k].1.Pair?
  {
    [ ("authorName", Pair(AuthorNameTemplate, c.authorName)),
      ("authorEmail", Pair(AuthorEmailTemplate, c.authorEmail)),
      ("name", Pair(NameLine, "$pkgName = '" + c.name + "'")),
      ("description", Pair(DescriptionLine, "$pkgDescription = '" + c.description + "'")),
      ("handle", Pair(HandleLine, "$pkgHandle = '" + c.handle + "'")),
      ("namespace", Pair(NamespaceTemplate, "Concrete\\Package\\" + studly(c.handle))),
      ("otherNameInstances", Pair(NameTemplate, c.name)),
      ("otherDescriptionInstances", Pair(DescriptionTemplate, c.description)),
      ("otherHandleInstances", Pair(HandleTemplate, c.handle)) ]
  }

  const AuthorNameTemplate := "Oliver Green"
  const AuthorEmailTemplate := "oliver@c5labs.com"
  const NameLine := "$pkgName = 'Package Boilerplate'"
  const DescriptionLine := "$pkgDescription = 'Start building standards complient concrete5 pacakges from me.'"
  const HandleLine := "$pkgHandle = 'package-boilerplate'"
  const NamespaceTemplate := "Concrete\\Package\\PackageBoilerplate"
  const NameTemplate := "Package Boilerplate"
  const DescriptionTemplate := "Start building standards complient concrete5 packages from me."
  const HandleTemplate := "package-boilerplate"

  /**
   * The substitution table `handle` configures: the defaults, merged with the
   * given substitutions when there are any.
   */
  function OptionSubstitutions(c: Command, studly: string -> string): (r: SubstTable)
    ensures |c.extraSubstitutions| == 0 ==> r == DefaultSubstitutions(c, studly)
    ensures |c.extraSubstitutions| > 0 ==> r == ArrayMerge(DefaultSubstitutions(c, studly), c.extraSubstitutions)
    ensures |r| >= 9 && forall k :: 0 <= k < 9 ==> r[k].0 == DefaultSubstitutions(c, studly)[k].0
  {
    if |c.extraSubstitutions| > 0 then ArrayMerge(DefaultSubstitutions(c, studly), c.extraSubstitutions)
    else DefaultSubstitutions(c, studly)
  }

  /**
   * The exclusions `handle` adds to the table `ex`. With `uses_composer` off
   * the `composer` tag is appended to the controller's tags; with
   * `uses_service_providers` off the two helper files are skipped and the
   * `service-providers` tag is appended after that. Only absence, `null` and
   * `false` switch an option off. No other entry changes, and with both
   * options on the table is left as it is.
   */
  function OptionExclusions(options: map<string, PhpValue>, ex: Table<string>): (r: Table<string>)
    ensures var composerOff := OptionOff(options, UsesComposer);
            var providersOff := OptionOff(options, UsesServiceProviders);
            && r.Keys == ex.Keys + (if composerOff || providersOff then {Controller} else {})
                                 + (if providersOff then {DemoHelper, DemoHelperProvider} else {})
            && (composerOff && providersOff ==>
                  r[Controller] == List(ListedItems(ex, Controller) + ["composer", "service-providers"]))
            && (composerOff && !providersOff ==> r[Controller] == List(ListedItems(ex, Controller) + ["composer"]))
            && (!composerOff && providersOff ==>
                  r[Controller] == List(ListedItems(ex, Controller) + ["service-providers"]))
            && (!composerOff && !providersOff ==> r == ex)
            && (providersOff ==> r[DemoHelper] == Skip && r[DemoHelperProvider] == Skip)
            && (!providersOff ==> forall p :: p in ex && p != Controller ==> r[p] == ex[p])
    ensures forall p :: p in ex && p !in {Controller, DemoHelper, DemoHelperProvider} ==> r[p] == ex[p]
  {
    var ex1 := if OptionOff(options, UsesComposer) then SetExclusion(ex, Controller, Items(["composer"])) else ex;
    if OptionOff(options, UsesServiceProviders) then
      var a := SetExclusion(ex1, DemoHelper, NotArray);
      var b := SetExclusion(a, DemoHelperProvider, NotArray);
      assert ListedItems(b, Controller) == ListedItems(ex1, Controller);
      assert OptionOff(options, UsesComposer) ==>
               ListedItems(ex1, Controller) + ["service-providers"]
               == ListedItems(ex, Controller) + ["composer", "service-providers"];
      SetExclusion(b, Controller, Items(["service-providers"]))
    else ex1
  }

  /** The exporter `handle` configures: its `setExclusion` calls, then `setSubstitutions`. */
  function Configure(c: Command, studly: string -> string, e: Exporter): (r: Exporter)
    ensures r.exclusions == OptionExclusions(c.options, e.exclusions)
    ensures r.substitutions == OptionSubstitutions(c, studly)
  {
    SetSubstitutions(e.(exclusions := OptionExclusions(c.options, e.exclusions)), OptionSubstitutions(c, studly))
  }

  /** The nine default keys are distinct. */
  lemma DefaultKeysUnique(c: Command, studly: string -> string)
    ensures UniqueKeys(DefaultSubstitutions(c, studly))
  {
    var r := DefaultSubstitutions(c, studly);
    assert forall k :: 0 <= k < 9 ==> r[k].0 == DefaultKeys[k];
    assert forall k, l :: 0 <= k < l < 9 ==> DefaultKeys[k] != DefaultKeys[l] by {
      DefaultKeysDistinct();
    }
  }

  const DefaultKeys := ["authorName", "authorEmail", "name", "description", "handle", "namespace",
                        "otherNameInstances", "otherDescriptionInstances", "otherHandleInstances"]

  // No two default keys agree in both length and first character, so no two are equal.
  lemma DefaultKeysDistinct()
    ensures forall k, l :: 0 <= k < l < 9 ==> DefaultKeys[k] != DefaultKeys[l]
  {
    forall k, l | 0 <= k < l < 9
      ensures DefaultKeys[k] != DefaultKeys[l]
    {
      if |DefaultKeys[k]| == |DefaultKeys[l]| {
        assert DefaultKeys[k][0] != DefaultKeys[l][0];
      }
    }
  }

  /**
   * The given substitutions override defaults in place: each of the nine
   * default entries keeps its place and takes the value given under its
   * key, or keeps its own when none is given, so it runs in the default's
   * turn.
   */
  lemma OptionSubstitutionReplacesDefault(c: Command, studly: string -> string, e: Exporter)
    requires UniqueKeys(c.extraSubstitutions)
    ensures var defaults := DefaultSubstitutions(c, studly);
            var subs := Configure(c, studly, e).substitutions;
            forall i :: 0 <= i < 9 ==>
              subs[i] == (defaults[i].0, ValueIn(c.extraSubstitutions, defaults[i].0, defaults[i].1))
  {
    DefaultKeysUnique(c, studly);
    if |c.extraSubstitutions| == 0 {
      assert forall k, d :: ValueIn(c.extraSubstitutions, k, d) == d;
    }
  }

  /**
   * The given substitutions under new keys, such as a glob for one file, are
   * appended after all nine defaults in the order given, so they run after
   * every default pair.
   */
  lemma OptionSubstitutionAppended(c: Command, studly: string -> string, e: Exporter)
    requires UniqueKeys(c.extraSubstitutions)
    ensures var defaults := DefaultSubstitutions(c, studly);
            var subs := Configure(c, studly, e).substitutions;
            |subs| == 9 + |NewEntries(defaults, c.extraSubstitutions)|
            && subs[9..] == NewEntries(defaults, c.extraSubstitutions)
  {
    DefaultKeysUnique(c, studly);
  }

  /** `handle`: configure the exporter, then export the boilerplate tree. */
  function Handle(c: Command, studly: string -> string, e: Exporter, src: map<string, string>, basePath: string, writable: bool)
    : (r: Result<map<string, string>, Exception>)
    ensures r.Failure? <==> !writable
    ensures r.Success? ==> forall p :: p in r.value ==> p in src
    ensures r.Success? && OptionOff(c.options, UsesServiceProviders) ==>
              DemoHelper !in r.value && DemoHelperProvider !in r.value
  {
    Export(Configure(c, studly, e), src, basePath, writable)
  }

  /**
   * With both options off, a fresh exporter gets exactly three entries: the
   * controller with the tags `composer` then `service-providers`, and the two
   * helper files skipped.
   */
  lemma BothOffExclusions(c: Command, studly: string -> string, e: Exporter)
    requires OptionOff(c.options, UsesComposer) && OptionOff(c.options, UsesServiceProviders)
    requires e.exclusions == map[]
    ensures Configure(c, studly, e).exclusions
            == map[Controller := List(["composer", "service-providers"]), DemoHelper := Skip, DemoHelperProvider := Skip]
  {
    var ex1 := SetExclusion(map[], Controller, Items(["composer"]));
    assert ex1 == map[Controller := List(["composer"])];
    var a := SetExclusion(ex1, DemoHelper, NotArray);
    assert a == map[Controller := List(["composer"]), DemoHelper := Skip];
    var b := SetExclusion(a, DemoHelperProvider, NotArray);
    assert b == map[Controller := List(["composer"]), DemoHelper := Skip, DemoHelperProvider := Skip];
    assert ["composer"] + ["service-providers"] == ["composer", "service-providers"];
    assert SetExclusion(b, Controller, Items(["service-providers"]))
        == map[Controller := List(["composer", "service-providers"]), DemoHelper := Skip, DemoHelperProvider := Skip];
  }

  /** With both options given as `true`, no exclusion entry is set. */
  lemma BothOnExclusions(c: Command, studly: string -> string, e: Exporter)
    requires c.options == map[UsesComposer := PBool(true), UsesServiceProviders := PBool(true)]
    ensures Configure(c, studly, e).exclusions == e.exclusions
  {
  }

  /** Only `null`, `false` or absence switch an option off; `0` and `''` leave it on. */
  lemma FalsyValuesAreNotOff(options: map<string, PhpValue>, key: string)
    requires key in options && (options[key] == PInt(0) || options[key] == PString(""))
    ensures !OptionOff(options, key)
  {
  }
}
