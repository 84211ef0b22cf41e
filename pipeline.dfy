/** How the generator's output meets the batch compiler: the pair of folders
    created for an accepted name is listed as one light and one dark theme. */
module Pipeline {
  import opened Text
  import opened ClassRename
  import opened CreateTheme
  import opened BuildThemes

  lemma {:induction false} ScaffoldedPairIsClassified(name: string, themes: seq<string>)
    requires ThemeFolder(Light, name) in themes && ThemeFolder(Dark, name) in themes
    ensures ThemeFolder(Light, name) in WithPrefix(themes, LightPrefix)
    ensures ThemeFolder(Light, name) !in WithPrefix(themes, DarkPrefix)
    ensures ThemeFolder(Dark, name) in WithPrefix(themes, DarkPrefix)
    ensures ThemeFolder(Dark, name) !in WithPrefix(themes, LightPrefix)
  {
    var light := ThemeFolder(Light, name);
    var dark := ThemeFolder(Dark, name);
    assert light[..|LightPrefix|] == LightPrefix;
    assert dark[..|DarkPrefix|] == DarkPrefix;
    assert light[0] != DarkPrefix[0];
    assert dark[0] != LightPrefix[0];
  }
}
