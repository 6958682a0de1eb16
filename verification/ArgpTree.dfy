/**
 Argp option tables: a tree of argps, each with a vector of options, whether it
 has a parser function, and a vector of children.
 */
module ArgpTree {
  import opened Wrappers

  /** A C string. */
  type CName = s: string | '\0' !in s

  /** One `struct argp_option`, other than the end marker of the vector. */
  datatype ArgpOption = ArgpOption(
    name: Option<CName>,
    key: int,
    arg: bool,          // takes an argument ...
    argOptional: bool,  // ... OPTION_ARG_OPTIONAL
    hidden: bool,       // OPTION_HIDDEN
    isAlias: bool,       // OPTION_ALIAS
    doc: bool,          // OPTION_DOC
    group: int)

  datatype Argp = Argp(
    options: Option<seq<ArgpOption>>,
    parser: bool,
    argsDoc: Option<string>,
    children: Children)

  /** A vector of `struct argp_child`. */
  datatype Children =
    | End
    | Child(argp: Argp, group: int, header: Option<string>, next: Children)

  /** Which argp of a tree: the child indices on the way down from the root. */
  type Path = seq<nat>

  /** `__option_is_short`, with `isprint` as in the C locale. */
  predicate IsShort(o: ArgpOption)
  {
    !o.doc && 32 <= o.key <= 126
  }

  function OptionsOf(a: Argp): seq<ArgpOption>
  {
    if a.options.Some? then a.options.value else []
  }

  /** Whether an argp gets a group in the parser. */
  predicate HasGroup(a: Argp)
  {
    a.options.Some? || a.parser
  }

  /** The most recent non-alias option at or before index `i`; an alias with no
      option to refer to stands for itself. */
  function Base(opts: seq<ArgpOption>, i: nat): ArgpOption
    requires i < |opts|
  {
    if i == 0 || !opts[i].isAlias then opts[i] else Base(opts, i - 1)
  }

  function GroupCount(a: Argp): nat
  {
    (if HasGroup(a) then 1 else 0) + GroupCounts(a.children)
  }

  function GroupCounts(cs: Children): nat
  {
    match cs
    case End => 0
    case Child(a, _, _, next) => GroupCount(a) + GroupCounts(next)
  }

  function OptionCount(a: Argp): nat
  {
    |OptionsOf(a)| + OptionCounts(a.children)
  }

  function OptionCounts(cs: Children): nat
  {
    match cs
    case End => 0
    case Child(a, _, _, next) => OptionCount(a) + OptionCounts(next)
  }

  function NumChildren(cs: Children): nat
  {
    match cs
    case End => 0
    case Child(_, _, _, next) => 1 + NumChildren(next)
  }

  /** All children of all argps of the tree. */
  function ChildCount(a: Argp): nat
  {
    ChildCounts(a.children)
  }

  function ChildCounts(cs: Children): nat
  {
    match cs
    case End => 0
    case Child(a, _, _, next) => ChildCount(a) + 1 + ChildCounts(next)
  }
}
