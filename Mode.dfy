/** The `mode!` macro and the `Print` value it builds: a list of `;`-separated
    arguments expands, left to right, into the byte codes of one SGR
    sequence. */
module Mode {
  import opened Codes

  /** `Print`: the codes of one escape sequence, in the order given. */
  datatype Print = Print(codes: seq<Byte>)

  /** One argument of `mode!`. The two selector words of an extended colour
      are any `Ground` and any `Space`, whatever the number of operands
      that follows them. */
  datatype Arg =
    | Named(name: CodeName)                      // `BOLD`, `RED_BG`, ...
    | Runtime(code: Code)                        // `{expr}` of type `Code`
    | Indexed(ground: Ground, space: Space, index: Byte)
    | Triple(ground: Ground, space: Space, red: Byte, green: Byte, blue: Byte)

  /** The bytes one argument appends to the macro's accumulator: one code,
      or a selector pair and its one or three operands, the selectors being
      38/48 and 5/2 as the words say. */
  function Expansion(a: Arg): (r: seq<Byte>)
    ensures a.Named? ==> r == [Catalog(a.name).byte]
    ensures a.Runtime? ==> r == [a.code.byte]
    ensures a.Indexed? ==> |r| == 3 && r[2] == a.index
    ensures a.Triple? ==> |r| == 5 && r[2..] == [a.red, a.green, a.blue]
    ensures (a.Indexed? || a.Triple?) ==>
      && (r[0] == 38 <==> a.ground == Fg)
      && (r[0] == 48 <==> a.ground == Bg)
      && (r[1] == 5 <==> a.space == Pal)
      && (r[1] == 2 <==> a.space == Rgb)
  {
    match a
    case Named(n) => [Catalog(n).byte]
    case Runtime(c) => [c.byte]
    case Indexed(g, s, i) => [GroundCode(g).byte, SpaceCode(s).byte, i]
    case Triple(g, s, r, gr, b) => [GroundCode(g).byte, SpaceCode(s).byte, r, gr, b]
  }

  /** The bytes of the arguments, each argument's bytes in place: between
      one and five per argument. */
  function Expand(args: seq<Arg>): (r: seq<Byte>)
    ensures |args| <= |r| <= 5 * |args|
  {
    if args == [] then [] else Expansion(args[0]) + Expand(args[1..])
  }

  /** `__mode!`: peel one argument off the front, append its bytes to the
      accumulator `[$($code,)*]`, and recurse; with no argument left, wrap
      the accumulator in a `Print`. The accumulator is only ever extended:
      the result is `acc` followed by the bytes of the remaining arguments. */
  function Accumulate(acc: seq<Byte>, args: seq<Arg>): (p: Print)
    ensures p.codes == acc + Expand(args)
    decreases |args|
  {
    if args == [] then Print(acc)
    else
      assert acc + Expansion(args[0]) + Expand(args[1..]) == acc + Expand(args);
      Accumulate(acc + Expansion(args[0]), args[1..])
  }

  /** `mode!`: start `__mode!` with an empty accumulator. */
  function ModeOf(args: seq<Arg>): (p: Print)
    ensures p.codes == Expand(args)
  {
    Accumulate([], args)
  }

  /** `Print::erase`: the same codes behind a plain slice. */
  function Erase(p: Print): (q: Print)
    ensures q.codes == p.codes
  {
    Print(p.codes)
  }

  /** The first argument's bytes come first. */
  lemma ExpandCons(a: Arg, rest: seq<Arg>)
    ensures Expand([a] + rest) == Expansion(a) + Expand(rest)
  {
    assert ([a] + rest)[1..] == rest;
  }

  /** `mode!(a; b)` holds the codes of `mode!(a)` followed by those of
      `mode!(b)`: the arguments keep their order. */
  lemma {:induction false} ModeConcat(a: seq<Arg>, b: seq<Arg>)
    ensures ModeOf(a + b).codes == ModeOf(a).codes + ModeOf(b).codes
  {
    ExpandConcat(a, b);
  }

  lemma {:induction false} ExpandConcat(a: seq<Arg>, b: seq<Arg>)
    ensures Expand(a + b) == Expand(a) + Expand(b)
  {
    if a != [] {
      assert (a + b)[1..] == a[1..] + b;
      ExpandConcat(a[1..], b);
    } else {
      assert a + b == b;
    }
  }

  /** Arguments made only of catalog names and runtime codes give one code
      each, in order. */
  lemma {:induction false} SingleCodes(args: seq<Arg>)
    requires forall i :: 0 <= i < |args| ==> args[i].Named? || args[i].Runtime?
    ensures |Expand(args)| == |args|
    ensures forall i :: 0 <= i < |args| ==> [Expand(args)[i]] == Expansion(args[i])
  {
    if args != [] {
      SingleCodes(args[1..]);
      assert forall i :: 1 <= i < |args| ==> args[i] == args[1..][i - 1];
    }
  }
}
