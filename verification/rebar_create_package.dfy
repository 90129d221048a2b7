/**
 * `C5Dev\Rebar\Commands\CreatePackageCommand::handle`: builds the substitution
 * table and the line-range exclusions of the line-range exporter from the
 * command's parameters and options, then exports the `rebar` boilerplate.
 */
module RebarCreatePackage {
  import opened Wrappers
  import opened PhpString
  import opened Spans
  import opened Exclusions
  import opened RebarExporter

  /** The command's parameters: the package name, description, handle, author and options. */
  datatype Command = Command(
    name: string,
    description: string,
    handle: string,
    author: string,
    options: map<string, PhpValue>)

  const Controller := "controller.php"
  const DemoHelper := "src/Helpers/DemoHelper.php"
  const HelperProvider := "src/Providers/HelperServiceProvider.php"

  /** The controller lines that only a Composer-enabled package needs. */
  const ComposerRanges := [LineRange(119, 15), LineRange(155, 3)]

  /** The controller lines that only a package with service providers needs. */
  const ProviderRanges := [LineRange(109, 10), LineRange(134, 14), LineRange(158, 3)]

  const AuthorLine := "Oliver Green <oliver@c5dev.com>"
  const NameLine := "$pkgName = 'Rebar'"
  const DescriptionLine := "$pkgDescription = 'A boilerplate kind of thing.'"
  const HandleLine := "$pkgHandle = 'rebar'"
  const NamespacePrefix := "Concrete\\Package\\"
  const NamespaceTemplate := "Concrete\\Package\\Rebar"
  const NameTemplate := "Rebar"
  const DescriptionTemplate := "A boilerplate kind of thing."

  /**
   * The seven entries, in order. `studly` stands for Laravel's `Str::studly`.
   * The namespace entry comes before the bare `Rebar` entry.
   */
  function DefaultSubstitutions(c: Command, studly: string -> string): (r: SubstTable)
    ensures |r| == 7
    ensures r[4].1 == (NamespaceTemplate, NamespacePrefix + studly(c.handle))
    ensures r[5].1 == (NameTemplate, c.name)
  {
    [ ("packageAuthor", (AuthorLine, c.author)),
      ("packageName", (NameLine, "$pkgName = '" + c.name + "'")),
      ("packageDescription", (DescriptionLine, "$pkgDescription = '" + c.description + "'")),
      ("packageHandle", (HandleLine, "$pkgHandle = '" + c.handle + "'")),
      ("namespace", (NamespaceTemplate, NamespacePrefix + studly(c.handle))),
      ("otherNameInstances", (NameTemplate, c.name)),
      ("otherDescriptionInstances", (DescriptionTemplate, c.description)) ]
  }

  /**
   * The configuration `handle` gives the exporter `e`. With `uses_composer`
   * off the whole exclusion table is replaced by the controller's two
   * Composer ranges. With `uses_service_providers` off the two helper files
   * are skipped and the three provider ranges are appended for the controller.
   */
  function Configure(c: Command, studly: string -> string, e: Exporter): (r: Exporter)
    ensures r.substitutions == DefaultSubstitutions(c, studly)
    ensures OptionOff(c.options, UsesServiceProviders) ==>
              ShouldExcludeEntirely(r.exclusions, DemoHelper) && ShouldExcludeEntirely(r.exclusions, HelperProvider)
    ensures OptionOff(c.options, UsesComposer) && !OptionOff(c.options, UsesServiceProviders) ==>
              r.exclusions == map[Controller := List(ComposerRanges)]
    ensures OptionOff(c.options, UsesComposer) && OptionOff(c.options, UsesServiceProviders) ==>
              r.exclusions == map[Controller := List(ComposerRanges + ProviderRanges),
                                  DemoHelper := Skip, HelperProvider := Skip]
    ensures !OptionOff(c.options, UsesComposer) && !OptionOff(c.options, UsesServiceProviders) ==>
              r.exclusions == e.exclusions
  {
    var e1 :=
      if OptionOff(c.options, UsesComposer) then SetExclusions(e, map[Controller := List(ComposerRanges)])
      else e;
    var e2 :=
      if OptionOff(c.options, UsesServiceProviders) then
        var a := SetExclusionOf(e1, DemoHelper, NotArray);
        var b := SetExclusionOf(a, HelperProvider, NotArray);
        SetExclusionOf(b, Controller, Items(ProviderRanges))
      else e1;
    SetSubstitutions(e2, DefaultSubstitutions(c, studly))
  }

  /** `handle`: configure the exporter, then export the boilerplate tree. */
  function Handle(c: Command, studly: string -> string, e: Exporter, src: map<string, string>, basePath: string, writable: bool)
    : (r: Result<map<string, string>, Exception>)
    ensures r.Failure? <==> !writable
    ensures r.Success? ==> forall p :: p in r.value ==> p in src
    ensures r.Success? && OptionOff(c.options, UsesServiceProviders) ==>
              DemoHelper !in r.value && HelperProvider !in r.value
  {
    Export(Configure(c, studly, e), src, basePath, writable)
  }

  /** With only the providers option off, a fresh exporter's controller entry holds just the three provider ranges. */
  lemma ProvidersOnlyOff(c: Command, studly: string -> string, e: Exporter)
    requires !OptionOff(c.options, UsesComposer) && OptionOff(c.options, UsesServiceProviders)
    requires e.exclusions == map[]
    ensures Configure(c, studly, e).exclusions
            == map[Controller := List(ProviderRanges), DemoHelper := Skip, HelperProvider := Skip]
  {
    var a := SetExclusionOf(e, DemoHelper, NotArray);
    assert a.exclusions == map[DemoHelper := Skip];
    var b := SetExclusionOf(a, HelperProvider, NotArray);
    assert b.exclusions == map[DemoHelper := Skip, HelperProvider := Skip];
    var d := SetExclusionOf(b, Controller, Items(ProviderRanges));
    assert d.exclusions == map[Controller := List(ProviderRanges), DemoHelper := Skip, HelperProvider := Skip];
  }

  /** The five controller ranges of a package with both options off, in start order. */
  const BothOffSorted := [LineRange(109, 10), LineRange(119, 15), LineRange(134, 14), LineRange(155, 3), LineRange(158, 3)]

  /**
   * With both options off, whatever the exporter held before, the controller
   * entry is the Composer ranges followed by the provider ranges.
   */
  lemma BothOffControllerEntry(c: Command, studly: string -> string, e: Exporter)
    requires OptionOff(c.options, UsesComposer) && OptionOff(c.options, UsesServiceProviders)
    ensures ActiveItems(Configure(c, studly, e).exclusions, Controller) == Some(ComposerRanges + ProviderRanges)
  {
    var e1 := SetExclusions(e, map[Controller := List(ComposerRanges)]);
    var a := SetExclusionOf(e1, DemoHelper, NotArray);
    var b := SetExclusionOf(a, HelperProvider, NotArray);
    assert b.exclusions[Controller] == List(ComposerRanges);
  }

  /** Sorting the five ranges gives lines 109–118, 119–133, 134–147, 155–157 and 158–160. */
  lemma BothOffSortOrder()
    ensures SortByStart(ComposerRanges + ProviderRanges) == BothOffSorted
  {
    BothOffSameRanges();
    SortsTo(ComposerRanges + ProviderRanges, BothOffSorted);
  }

  /** The sorted list holds the same five ranges, each once. */
  lemma BothOffSameRanges()
    ensures multiset(ComposerRanges + ProviderRanges) == multiset(BothOffSorted)
  {
    var all := ComposerRanges + ProviderRanges;
    assert all == [all[0], all[1], all[2], all[3], all[4]];
    assert BothOffSorted == [all[2], all[0], all[3], all[1], all[4]];
  }

  /** Once sorted, the five ranges are disjoint and inside any controller of at least 160 lines. */
  lemma BothOffRangesDisjoint(n: int)
    requires n >= 160
    ensures Ascending(ToSpans(BothOffSorted), 0, n)
  {
    var ss := ToSpans(BothOffSorted);
    assert ss == [Span(108, 118), Span(118, 133), Span(133, 147), Span(154, 157), Span(157, 160)];
    assert ss[4..][1..] == [];
    assert Ascending(ss[4..], 157, n);
    assert ss[3..][1..] == ss[4..];
    assert Ascending(ss[3..], 154, n);
    assert ss[2..][1..] == ss[3..];
    assert Ascending(ss[2..], 133, n);
    assert ss[1..][1..] == ss[2..];
    assert Ascending(ss[1..], 118, n);
    assert ss[0..][1..] == ss[1..] && ss[0..] == ss;
  }

  /**
   * With both options off, a controller of at least 160 lines loses exactly
   * the lines of the five ranges, 45 lines in all, the rest kept in order.
   */
  lemma BothOffController(c: Command, studly: string -> string, e: Exporter, t: string)
    requires OptionOff(c.options, UsesComposer) && OptionOff(c.options, UsesServiceProviders)
    requires |Explode(t, '\n')| >= 160
    ensures var kept := Uncovered(Explode(t, '\n'), ToSpans(BothOffSorted), 0);
            && ProcessLineExclusions(Configure(c, studly, e), Controller, t) == Implode(kept, '\n')
            && |kept| == |Explode(t, '\n')| - 45
  {
    var lines := Explode(t, '\n');
    BothOffControllerEntry(c, studly, e);
    BothOffSortOrder();
    BothOffRangesDisjoint(|lines|);
    assert SumCounts(BothOffSorted) == 45;
    var ex := Configure(c, studly, e);
    assert ActiveItems(ex.exclusions, Controller).Some?;
    assert SortByStart(ActiveItems(ex.exclusions, Controller).value) == BothOffSorted;
  }

  /**
   * The namespace pair runs before the bare `Rebar` pair, so the template's
   * namespace becomes the studly handle and not the package name, provided
   * the studly handle does not itself hold a later search string.
   */
  lemma NamespaceBeforeName(c: Command, studly: string -> string, path: string)
    requires !Contains(studly(c.handle), NameTemplate)
    requires !Contains(studly(c.handle), DescriptionTemplate)
    ensures Substitute(DefaultSubstitutions(c, studly), path, NamespaceTemplate)
            == NamespacePrefix + studly(c.handle)
  {
    var s0 := DefaultSubstitutions(c, studly);
    FirstFourMissNamespace(s0, path);
    NamespaceEntryApplies(s0[4..], path, studly(c.handle));
    LastTwoMissPrefixed(s0[5..], path, studly(c.handle));
  }

  // None of the first four search strings occurs in the namespace template.
  lemma FirstFourMissNamespace(s0: SubstTable, path: string)
    requires |s0| >= 4
    requires s0[0].1.0 == AuthorLine && s0[1].1.0 == NameLine
    requires s0[2].1.0 == DescriptionLine && s0[3].1.0 == HandleLine
    ensures Substitute(s0, path, NamespaceTemplate) == Substitute(s0[4..], path, NamespaceTemplate)
  {
    TemplateLacksLineStarts();
    var t := NamespaceTemplate;
    FirstCharAbsent(t, AuthorLine);
    SubstituteSkip(s0, path, t);
    assert s0[1..][1..] == s0[2..] && s0[2..][1..] == s0[3..] && s0[3..][1..] == s0[4..];
    FirstCharAbsent(t, NameLine);
    SubstituteSkip(s0[1..], path, t);
    FirstCharAbsent(t, DescriptionLine);
    SubstituteSkip(s0[2..], path, t);
    FirstCharAbsent(t, HandleLine);
    SubstituteSkip(s0[3..], path, t);
  }

  /** The namespace template holds neither an `O` nor a `$`. */
  lemma TemplateLacksLineStarts()
    ensures AuthorLine[0] !in NamespaceTemplate && NameLine[0] !in NamespaceTemplate
    ensures DescriptionLine[0] !in NamespaceTemplate && HandleLine[0] !in NamespaceTemplate
  {
    var t := NamespaceTemplate;
    assert forall i :: 0 <= i < |t| ==> t[i] != 'O' && t[i] != '$';
  }

  // The namespace entry replaces the whole template by the prefixed studly handle.
  lemma NamespaceEntryApplies(s4: SubstTable, path: string, studlyHandle: string)
    requires |s4| > 0 && s4[0].1 == (NamespaceTemplate, NamespacePrefix + studlyHandle)
    ensures Substitute(s4, path, NamespaceTemplate) == Substitute(s4[1..], path, NamespacePrefix + studlyHandle)
  {
    ReplacementNotRescanned(NamespaceTemplate, NamespacePrefix + studlyHandle);
  }

  // The last two search strings miss the prefixed studly handle.
  lemma LastTwoMissPrefixed(s5: SubstTable, path: string, studlyHandle: string)
    requires |s5| == 2 && s5[0].1.0 == NameTemplate && s5[1].1.0 == DescriptionTemplate
    requires !Contains(studlyHandle, NameTemplate) && !Contains(studlyHandle, DescriptionTemplate)
    ensures Substitute(s5, path, NamespacePrefix + studlyHandle) == NamespacePrefix + studlyHandle
  {
    var u := NamespacePrefix + studlyHandle;
    PrefixLacksInitials();
    NotContainsConcat(NamespacePrefix, studlyHandle, NameTemplate);
    SubstituteSkip(s5, path, u);
    NotContainsConcat(NamespacePrefix, studlyHandle, DescriptionTemplate);
    SubstituteSkip(s5[1..], path, u);
    assert s5[1..][1..] == [];
  }

  /** The namespace prefix holds neither an upper-case `R` nor an upper-case `A`. */
  lemma PrefixLacksInitials()
    ensures NameTemplate[0] !in NamespacePrefix && DescriptionTemplate[0] !in NamespacePrefix
  {
    var p := NamespacePrefix;
    assert forall i :: 0 <= i < |p| ==> p[i] != 'R' && p[i] != 'A';
  }

  /** An entry whose search string does not occur is passed over. */
  lemma SubstituteSkip(subs: SubstTable, path: string, t: string)
    requires |subs| > 0 && !Contains(t, subs[0].1.0)
    ensures Substitute(subs, path, t) == Substitute(subs[1..], path, t)
  {
  }
}
