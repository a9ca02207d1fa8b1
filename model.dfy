/**
 * The module graph that the tree-shaking pass of
 * packages/metro-tree-shaking/src/index.js works on: modules keyed by
 * absolute path, each with its export table, its locally declared export
 * names, its dependency edges and the export statements of its syntax tree.
 */
module Modules {
  import opened Utils
  import opened ExportTables

  /** One entry of `module.dependencies`, keyed by the import source string:
      the resolved absolute path of the target and the snapshot
      (`data.data.importee`) of what this edge uses of the target. */
  datatype Dependency = Dependency(source: string, target: string, snap: ExportTable)

  /** A declarator of `export var a = 1, {b} = o;`: an identifier, or a
      destructuring pattern (which the pruner never touches). */
  datatype Declarator = Named(name: string) | Pattern

  /** A specifier of `export { ... }` / `export { ... } from '...'`:
      `local as exported`, or another specifier kind (such as
      `export * as ns from '...'`), whose local name reads as "". */
  datatype Specifier = ExportSpecifier(local: string, exported: string) | OtherSpecifier(exported: string)

  /** `specifier.type === 'ExportSpecifier' ? specifier.local.name : ''` */
  function LocalName(s: Specifier): string
  {
    match s
    case ExportSpecifier(local, _) => local
    case OtherSpecifier(_) => ""
  }

  /** The export statements of a module's syntax tree, in program order. */
  datatype ExportItem =
    | ClassOrFunction(name: string)                                      // export class C {} / export function f() {}
    | VarDecl(declarators: seq<Declarator>)                              // export var a = 1, b = 2;
    | Specifiers(source: Option<string>, specifiers: seq<Specifier>)     // export { a as b } [from 'x']
    | DefaultExpr                                                        // export default <expr>;
    | ExportAll(from: string)                                            // export * from 'x';

  /** A module of the graph.
      - `table`: `module.importee`, how other modules reference this one;
      - `namedExports`: the names the module declares and exports itself;
      - `deps`: `module.dependencies` in insertion order;
      - `items`: the export statements of `module.sourceAst`;
      - `bindings`: the reference count Babel's scope gives each top-level
        binding (`path.scope.bindings[name].references`);
      - `defaultImportFound`: what the scope search for an
        `ImportDefaultSpecifier` answers;
      - `output`: the compiled output. */
  datatype Module = Module(
    table: ExportTable,
    namedExports: seq<string>,
    deps: seq<Dependency>,
    items: seq<ExportItem>,
    bindings: map<string, int>,
    defaultImportFound: bool,
    output: string)

  /** `exportsFormOtherModule`: the keys of a module's export table that it
      does not declare itself, i.e. the names it forwards from elsewhere. */
  function Forwarded(m: Module): (r: set<string>)
    ensures forall name :: name in r <==> name in m.table.exports && name !in m.namedExports
  {
    set name | name in m.table.exports && name !in m.namedExports
  }

  /** `Object.keys(module.importee.exports).filter(name => !module.namedExports.includes(name))`.
      The keys are walked in some order; only which names come out, and
      whether any do, is used afterwards. */
  method ForwardedNames(m: Module) returns (names: seq<string>)
    ensures Elements(names) == Forwarded(m)
    ensures NoDuplicates(names)
  {
    names := [];
    var rest := m.table.exports.Keys;
    while rest != {}
      invariant rest <= m.table.exports.Keys
      invariant forall name :: name in names <==> name in m.table.exports && name !in rest && name !in m.namedExports
      invariant NoDuplicates(names)
      decreases rest
    {
      var key :| key in rest;
      if key !in m.namedExports {
        names := names + [key];
      }
      rest := rest - {key};
    }
  }

  /** `module.dependencies.get(source)`: the edge keyed by `source`. */
  function Lookup(deps: seq<Dependency>, source: string): (r: Option<Dependency>)
    ensures r.None? <==> forall d :: d in deps ==> d.source != source
    ensures r.Some? ==> r.value in deps && r.value.source == source
    ensures r.Some? ==>
      exists i :: 0 <= i < |deps| && deps[i] == r.value && forall j :: 0 <= j < i ==> deps[j].source != source
  {
    if deps == [] then None
    else if deps[0].source == source then Some(deps[0])
    else Lookup(deps[1..], source)
  }

  /** `module.dependencies.delete(source)`: every other edge stays, in order. */
  function DeleteSource(deps: seq<Dependency>, source: string): (r: seq<Dependency>)
    ensures forall d :: d in r <==> d in deps && d.source != source
    ensures |r| <= |deps|
  {
    if deps == [] then []
    else (if deps[0].source == source then [] else [deps[0]]) + DeleteSource(deps[1..], source)
  }

  /** The literal key under which Babel's interop helper is a dependency. */
  const InteropHelper: string := "@babel/runtime/helpers/interopRequireWildcard"
}
