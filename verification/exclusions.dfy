/**
 * The exclusion table both exporter generations keep: for each relative path,
 * either `true` (do not export the file at all) or a list of items to cut out
 * of it (tag names for the tagged-region exporter, line ranges for the
 * line-range exporter). `setExclusions` may also store any other value, which
 * neither skips the file nor cuts anything.
 */
module Exclusions {
  import opened Wrappers

  /** One entry of the table. */
  datatype Entry<T> =
    | Skip                    // the value `true`
    | List(items: seq<T>)     // an array of items, possibly empty
    | Other                   // any other value: `false`, `null`, a string, a number

  type Table<T> = map<string, Entry<T>>

  /** The second argument of `setExclusion`: an array of items, or anything else. */
  datatype Arg<T> = Items(items: seq<T>) | NotArray

  /**
   * `setExclusion($path, $arg)`: a non-array stores `true`; an array is
   * appended to a list already stored for the path, and otherwise replaces
   * the entry. Every other path keeps its entry.
   */
  function SetExclusion<T>(ex: Table<T>, path: string, arg: Arg<T>): (r: Table<T>)
    ensures r.Keys == ex.Keys + {path}
    ensures forall p :: p in ex && p != path ==> r[p] == ex[p]
    ensures arg.NotArray? <==> r[path] == Skip
    ensures arg.Items? && path in ex && ex[path].List? ==> r[path] == List(ex[path].items + arg.items)
    ensures arg.Items? && (path !in ex || !ex[path].List?) ==> r[path] == List(arg.items)
    ensures arg.Items? ==> r[path] == List(ListedItems(ex, path) + arg.items)
  {
    match arg
    case NotArray => ex[path := Skip]
    case Items(xs) =>
      if path in ex && ex[path].List? then ex[path := List(ex[path].items + xs)]
      else
        assert ListedItems(ex, path) + xs == xs;
        ex[path := List(xs)]
  }

  /** The items a list entry holds already: none when the entry is absent or not a list. */
  function ListedItems<T>(ex: Table<T>, path: string): seq<T> {
    if path in ex && ex[path].List? then ex[path].items else []
  }

  /** `shouldExcludeEntirely($path)`: the entry is exactly `true`. */
  predicate ShouldExcludeEntirely<T>(ex: Table<T>, path: string) {
    path in ex && ex[path] == Skip
  }

  /**
   * The items to cut from the file at `path`, when its entry is a non-empty
   * array (`! empty(...) && is_array(...)`); `None` leaves the file untouched.
   */
  function ActiveItems<T>(ex: Table<T>, path: string): (r: Option<seq<T>>)
    ensures r.Some? <==> path in ex && ex[path].List? && |ex[path].items| > 0
    ensures r.Some? ==> r.value == ex[path].items
  {
    if path in ex && ex[path].List? && |ex[path].items| > 0 then Some(ex[path].items) else None
  }

  /** A skipped file has nothing cut from it, and a file with items to cut is not skipped. */
  lemma SkipAndCutExclusive<T>(ex: Table<T>, path: string)
    ensures ShouldExcludeEntirely(ex, path) ==> ActiveItems(ex, path).None?
    ensures ActiveItems(ex, path).Some? ==> !ShouldExcludeEntirely(ex, path)
  {
  }

  /** Setting `true` skips the file and discards any list stored for it before. */
  lemma FlagSkips<T>(ex: Table<T>, path: string)
    ensures ShouldExcludeEntirely(SetExclusion(ex, path, NotArray), path)
    ensures ActiveItems(SetExclusion(ex, path, NotArray), path).None?
  {
  }

  /** A list set after `true` replaces it: the file is exported again, with only the new items cut. */
  lemma ListAfterFlagUnskips<T>(ex: Table<T>, path: string, xs: seq<T>)
    requires |xs| > 0
    ensures var r := SetExclusion(SetExclusion(ex, path, NotArray), path, Items(xs));
            !ShouldExcludeEntirely(r, path) && ActiveItems(r, path) == Some(xs)
  {
  }

  /** Two lists set one after the other for a fresh path accumulate in call order. */
  lemma ListsAccumulate<T>(ex: Table<T>, path: string, a: seq<T>, b: seq<T>)
    requires path !in ex
    requires |a| + |b| > 0
    ensures ActiveItems(SetExclusion(SetExclusion(ex, path, Items(a)), path, Items(b)), path) == Some(a + b)
  {
  }

  /** Setting an entry never changes whether another path is skipped or what is cut from it. */
  lemma OtherPathsUnaffected<T>(ex: Table<T>, path: string, arg: Arg<T>, other: string)
    requires other != path
    ensures ShouldExcludeEntirely(SetExclusion(ex, path, arg), other) == ShouldExcludeEntirely(ex, other)
    ensures ActiveItems(SetExclusion(ex, path, arg), other) == ActiveItems(ex, other)
  {
  }
}
