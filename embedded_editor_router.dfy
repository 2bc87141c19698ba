/**
 * The default router of the embedded editor: where the envelope's pages are
 * relative to the host, which origin messages are posted to, and which
 * language data an opened file's extension selects.
 *
 * The extension-to-language map is built by the base router from the routes
 * given to the constructor; the model takes that map as it is, and leaves
 * the language data's shape open as the type parameter `L`.
 */
module EmbeddedEditorRouter {
  import opened Wrappers

  datatype EmbeddedEditorRouter<L> = EmbeddedEditorRouter(languageDataByFileExtension: map<string, L>)
  {
    /** `../` followed by the URI: one level up from the envelope's page. */
    function GetRelativePathTo(uri: string): (r: string)
      ensures |r| == |uri| + 3
      ensures r[..3] == "../" && r[3..] == uri
    {
      "../" + uri
    }

    /** The map's entry for the extension, and nothing for an extension it lacks. */
    function GetLanguageData(fileExtension: string): (r: Option<L>)
      ensures r.Some? <==> fileExtension in languageDataByFileExtension
      ensures r.Some? ==> r.value == languageDataByFileExtension[fileExtension]
    {
      if fileExtension in languageDataByFileExtension
      then Some(languageDataByFileExtension[fileExtension])
      else None
    }

    /** The target origin is always the empty string, whatever the routes. */
    function GetTargetOrigin(): (r: string)
      ensures |r| == 0
    {
      ""
    }
  }

  /** Distinct URIs give distinct relative paths. */
  lemma GetRelativePathToInjective<L>(router: EmbeddedEditorRouter<L>, u: string, v: string)
    requires router.GetRelativePathTo(u) == router.GetRelativePathTo(v)
    ensures u == v
  {
  }
}
