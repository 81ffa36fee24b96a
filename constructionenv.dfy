/** The construction variables the tool reads from an SCons environment, the
    errors its pseudo-builders raise, and the registrations they make. */
module ConstructionEnv {

  /** The `AD_*` and `A2X_*` construction variables, after any call-site
      overrides have been applied. */
  datatype Env = Env(
    adBackend: string,              // AD_BACKEND
    adDoctype: string,              // AD_DOCTYPE
    adConfFiles: seq<string>,       // AD_CONFFILES
    adAttributes: seq<string>,      // AD_ATTRIBUTES
    a2xFormat: string,              // A2X_FORMAT
    a2xDoctype: string,             // A2X_DOCTYPE
    a2xConfFile: string,            // A2X_CONFFILE
    a2xAttributes: seq<string>,     // A2X_ATTRIBUTES
    a2xResources: seq<string>,      // A2X_RESOURCES
    a2xResourceManifest: string,    // A2X_RESOURCEMANIFEST
    a2xKeepArtifacts: bool          // A2X_KEEPARTIFACTS
  )

  /** What a pseudo-builder raises: the invalid-value cases are `ValueError`s,
      the two incompatible combinations `SCons.Errors.UserError`s, an
      unreadable resource manifest the `IOError` of `open`, and a plain string
      in the a2x loop, which has no `path`, an `AttributeError`. */
  datatype BuildError =
    | InvalidAdBackend(backend: string)
    | InvalidAdDoctype(doctype: string)
    | BookNeedsDocbook
    | InvalidA2xFormat(format: string)
    | InvalidA2xDoctype(doctype: string)
    | ManpageNeedsManpageDoctype(doctype: string)
    | ManifestUnreadable(path: string)
    | TargetNotANode(target: string)

  datatype Outcome = Pass | Fail(error: BuildError)

  datatype Result<+T> = Ok(value: T) | Err(error: BuildError)

  /** One `env.Depends(target, prerequisite)` call. */
  datatype Dep = Dep(target: string, prerequisite: string)

  /** One `env.Clean(target, files)` call. */
  datatype CleanEntry = CleanEntry(target: string, files: seq<string>)

  /** `Dep(t, p)` for each `p` of `ps`, in order. */
  function DepsOn(t: string, ps: seq<string>): (r: seq<Dep>)
    ensures |r| == |ps|
    ensures forall k :: 0 <= k < |ps| ==> r[k] == Dep(t, ps[k])
  {
    seq(|ps|, k requires 0 <= k < |ps| => Dep(t, ps[k]))
  }
}
