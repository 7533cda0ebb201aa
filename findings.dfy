/** The loader that `doMapSync` hands on to the package it maps into. */
module Findings {
  import opened Wrappers
  import opened JsString
  import opened Dicts
  import opened Errors
  import opened Configuration
  import opened Extensions

  /** The default-extension step of `applyPackageConfigSync` with the loader
      it was given: `None` is an `undefined` loader, whose `meta` cannot be
      read. The package's own meta is consulted before the loader is touched. */
  function ExtendedWithLoader(loaderMeta: Option<Dict<MetaFragment>>, pkg: Package, pkgName: string,
                              subPath: string, skipExtensions: bool): (r: Result<string>)
    ensures loaderMeta.Some? ==> r == Ok(DefaultExtended(loaderMeta.value, pkg, pkgName, subPath, skipExtensions))
  {
    if subPath == "" || pkg.defaultExtension == "" || subPath[|subPath| - 1] == '/' || skipExtensions
    then Ok(subPath)
    else if MetaOptOut(pkg.meta, subPath) then Ok(subPath)
    else
      match loaderMeta
      case None => Err(UndefinedReceiver("meta"))
      case Some(globalMeta) => Ok(DefaultExtended(globalMeta, pkg, pkgName, subPath, skipExtensions))
  }

  /** The package `app` with default extension `js` and the map `./a -> ./b`. */
  function MappedPackage(): Package
  {
    Package("", [Entry("./a", Target("./b"))], [], "js", true)
  }

  /** As written, `doMapSync` resolves the target `./b` with an undefined
      loader, so the path `b` that should become `b.js` throws instead. */
  lemma UnboundLoaderThrows()
    ensures ExtendedWithLoader(None, MappedPackage(), "app", "b", false) == Err(UndefinedReceiver("meta"))
  {
    assert MetaMatches([], "b") == [];
  }

  /** With the loader passed on, the same step yields `b.js`, and for every
      input it is `addDefaultExtension` and never an error. */
  lemma BoundLoaderExtends(globalMeta: Dict<MetaFragment>, pkg: Package, pkgName: string,
                           subPath: string, skipExtensions: bool)
    ensures ExtendedWithLoader(Some([]), MappedPackage(), "app", "b", false) == Ok("b.js")
    ensures ExtendedWithLoader(Some(globalMeta), pkg, pkgName, subPath, skipExtensions).Ok?
  {
    MappedPackageExtends(MappedPackage(), "b");
  }

  /** Empty meta never opts out. */
  lemma EmptyMetaKeeps(subPath: string)
    ensures !MetaOptOut([], subPath)
  {
    assert MetaMatches([], subPath) == [];
  }

  lemma MappedPackageExtends(pkg: Package, subPath: string)
    requires pkg == MappedPackage() && subPath == "b"
    ensures DefaultExtended([], pkg, "app", subPath, false) == subPath + "." + pkg.defaultExtension == "b.js"
  {
    EmptyMetaKeeps(subPath);
    EmptyMetaKeeps("app/" + subPath);
    assert SubstrFrom(subPath, |subPath| - |".js"|) == subPath;
  }
}
