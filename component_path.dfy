/**
 * Path Resolver: the component path of a `.vue` page is its file path relative
 * to `<workspace>/resources/js/pages/` with one trailing `.vue` removed
 * (`extractComponentPath`).
 */
module ComponentPath {
  import opened Wrappers
  import opened Text

  const PagesDir: string := "/resources/js/pages/"
  const VueExtension: string := ".vue"

  /** `path.join(workspace, 'resources/js/pages/')` for a normalised workspace without a trailing slash. */
  function PagesPrefix(workspace: string): string
  {
    workspace + PagesDir
  }

  /**
   * The component path of `vueFilePath`, or `None` when the file is not under
   * the pages directory. Whatever follows the prefix is kept as it is, slashes
   * included, except for one `.vue` at the very end.
   */
  function ExtractComponentPath(vueFilePath: string, workspace: string): (r: Option<string>)
    ensures r.None? <==> !StartsWith(vueFilePath, PagesPrefix(workspace))
    ensures r.Some? ==>
      var rest := vueFilePath[|PagesPrefix(workspace)|..];
      vueFilePath == PagesPrefix(workspace) + r.value + (if EndsWith(rest, VueExtension) then VueExtension else "")
  {
    var prefix := PagesPrefix(workspace);
    if !StartsWith(vueFilePath, prefix) then None
    else
      var rest := vueFilePath[|prefix|..];
      assert vueFilePath == prefix + rest;
      if EndsWith(rest, VueExtension) then
        assert rest == rest[..|rest| - |VueExtension|] + VueExtension;
        Some(rest[..|rest| - |VueExtension|])
      else
        Some(rest)
  }

  /** A page `<pages>/<component>.vue` resolves to exactly `<component>`. */
  lemma PageResolves(workspace: string, component: string)
    ensures ExtractComponentPath(PagesPrefix(workspace) + component + VueExtension, workspace) == Some(component)
  {
    var prefix := PagesPrefix(workspace);
    var file := prefix + component + VueExtension;
    assert file[..|prefix|] == prefix;
    assert file[|prefix|..] == component + VueExtension;
    assert (component + VueExtension)[|component|..] == VueExtension;
    assert (component + VueExtension)[..|component|] == component;
  }

  /** A file under the pages directory that does not end in `.vue` keeps its whole relative path. */
  lemma NonVueResolves(workspace: string, rest: string)
    requires !EndsWith(rest, VueExtension)
    ensures ExtractComponentPath(PagesPrefix(workspace) + rest, workspace) == Some(rest)
  {
    var prefix := PagesPrefix(workspace);
    var file := prefix + rest;
    assert file[..|prefix|] == prefix;
    assert file[|prefix|..] == rest;
  }
}
