/** The metadata model the generator consumes: definitions, the scopes they
    may belong to, and the module that holds them. It is built by the
    annotation processor before generation starts and is read-only here. */
module Metadata {

  datatype Option<+T> = None | Some(value: T)

  /** Scope identity is compared by value. */
  type ScopeId = string

  /** The registration keyword of a definition (single, factory, scoped, ...)
      and the import its DSL function needs, when it needs one. */
  datatype Keyword = Keyword(name: string, importPath: Option<string>)

  /** One registration unit: a class to construct, or a factory function.
      A class function is a member of the module class and must be called
      through an instance of that class. */
  datatype Definition =
    | ClassDefinition(name: string, packageName: string, keyword: Keyword, scope: Option<ScopeId>)
    | FunctionDefinition(name: string, packageName: string, keyword: Keyword, scope: Option<ScopeId>,
                         isClassFunction: bool)
  {
    predicate IsScoped() { scope.Some? }

    predicate IsNotScoped() { scope.None? }

    predicate IsClassFunction() { FunctionDefinition? && isClassFunction }
  }

  /** A module listed in `includes`, reduced to its package and class name. */
  datatype Include = Include(packageName: string, className: string)

  /** A user-declared module.
      `flatPackageName` is the package name with its dots replaced by `_`,
      and `visibility` is the visibility modifier as source text; both are
      computed by the metadata model, outside this generator. */
  datatype Module = Module(
    packageName: string,
    flatPackageName: string,
    name: string,
    visibility: string,
    definitions: seq<Definition>,
    includes: Option<seq<Include>>)
}
