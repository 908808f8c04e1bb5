/**
 * Interned symbols (src/interpreter/identifier.rs).
 *
 * An `Identifier` is nothing but the 64-bit hash of its text; a process-wide
 * "backwards" map from hash to the first text seen with that hash recovers the
 * text for display.  The hash function is a parameter of the interner: nothing
 * is assumed about it, in particular it need not be injective.
 */
module Identifiers {
  import opened Wrappers

  newtype u64 = x: int | 0 <= x < 0x1_0000_0000_0000_0000

  datatype Identifier = Identifier(hashedIdent: u64)

  /** The key of one operator overload: operator symbol and operand type names. */
  datatype OperatorIdentifier = OperatorIdentifier(op: Identifier, left: Identifier, right: Identifier)

  /** The identifier the interner hands out for `text` under `hash`. */
  function IdentifierOf(hash: string -> u64, text: string): Identifier {
    Identifier(hash(text))
  }

  /** Rust's `std::cmp::Ordering`. */
  datatype Ordering = Less | Equal | Greater

  /** Derived `Ord` of `Identifier`: the order of the hashes. */
  function CompareIdentifier(a: Identifier, b: Identifier): (r: Ordering)
    ensures r == Equal <==> a == b
    ensures r == Less <==> a.hashedIdent < b.hashedIdent
  {
    if a.hashedIdent < b.hashedIdent then Less
    else if a.hashedIdent == b.hashedIdent then Equal
    else Greater
  }

  /** Derived `Ord` of `OperatorIdentifier`: lexicographic over (op, left, right). */
  function CompareOperator(a: OperatorIdentifier, b: OperatorIdentifier): Ordering {
    match CompareIdentifier(a.op, b.op)
    case Equal =>
      (match CompareIdentifier(a.left, b.left)
       case Equal => CompareIdentifier(a.right, b.right)
       case c => c)
    case c => c
  }

  /** Derived `PartialEq` of `OperatorIdentifier`: field-wise equality. */
  predicate OperatorEq(a: OperatorIdentifier, b: OperatorIdentifier) {
    a.op == b.op && a.left == b.left && a.right == b.right
  }

  /** Two operator keys compare `Equal` exactly when all three components agree. */
  lemma CompareOperatorEqual(a: OperatorIdentifier, b: OperatorIdentifier)
    ensures CompareOperator(a, b) == Equal <==> OperatorEq(a, b)
    ensures OperatorEq(a, b) <==> a == b
  {
  }

  /** The lexicographic order: `a < b` iff the first differing component is smaller. */
  lemma CompareOperatorLess(a: OperatorIdentifier, b: OperatorIdentifier)
    ensures CompareOperator(a, b) == Less <==>
      || a.op.hashedIdent < b.op.hashedIdent
      || (a.op == b.op && a.left.hashedIdent < b.left.hashedIdent)
      || (a.op == b.op && a.left == b.left && a.right.hashedIdent < b.right.hashedIdent)
  {
  }

  /** The order is antisymmetric: swapping the arguments flips Less and Greater. */
  lemma CompareOperatorFlip(a: OperatorIdentifier, b: OperatorIdentifier)
    ensures CompareOperator(a, b) == Less <==> CompareOperator(b, a) == Greater
  {
  }

  /** The order is transitive. */
  lemma CompareOperatorTransitive(a: OperatorIdentifier, b: OperatorIdentifier, c: OperatorIdentifier)
    requires CompareOperator(a, b) == Less && CompareOperator(b, c) == Less
    ensures CompareOperator(a, c) == Less
  {
    CompareOperatorLess(a, b);
    CompareOperatorLess(b, c);
    CompareOperatorLess(a, c);
  }

  /** The builtin names of identifier.rs: type names and operator symbols. */
  datatype Builtin =
    | ForNah | ForNumber | ForBool | ForString | ForFunction | ForStructType | ForNativeObject
    | ForPlus | ForMinus | ForMultiply | ForDivide | ForMod | ForPow | ForAnd | ForOr | ForCombine
    | ForLess | ForLessEq | ForGreater | ForGreaterEq | ForEq | ForNotEq

  /** The fixed text each `Identifier::for_*` constructor interns. */
  function BuiltinText(b: Builtin): (s: string)
    ensures |s| > 0
  {
    match b
    case ForNah => "Nah"
    case ForNumber => "Number"
    case ForBool => "Bool"
    case ForString => "String"
    case ForFunction => "Function"
    case ForStructType => "StructType"
    case ForNativeObject => "NativeObject"
    case ForPlus => "+"
    case ForMinus => "-"
    case ForMultiply => "*"
    case ForDivide => "/"
    case ForMod => "%"
    case ForPow => "**"
    case ForAnd => "&&"
    case ForOr => "||"
    case ForCombine => "<>"
    case ForLess => "<"
    case ForLessEq => "<="
    case ForGreater => ">"
    case ForGreaterEq => ">="
    case ForEq => "=="
    case ForNotEq => "!="
  }

  /**
   * The interner: the hash function and the backwards map.  `seen` is the
   * ghost record of every text interned so far.
   */
  class Interner {
    const hash: string -> u64
    var backwards: map<u64, string>
    ghost var seen: set<string>

    /** Every stored text is a seen text stored under its own hash, and every seen text is stored. */
    ghost predicate Valid()
      reads this
    {
      && (forall h :: h in backwards ==> backwards[h] in seen && hash(backwards[h]) == h)
      && (forall s :: s in seen ==> hash(s) in backwards)
    }

    constructor (hash: string -> u64)
      ensures Valid()
      ensures this.hash == hash && backwards == map[] && seen == {}
    {
      this.hash := hash;
      backwards := map[];
      seen := {};
    }

    /**
     * `Identifier::new`: hash the text and record it in the backwards map
     * unless the hash is already there (first writer wins).
     */
    method New(text: string) returns (id: Identifier)
      requires Valid()
      modifies this
      ensures Valid()
      ensures id == IdentifierOf(hash, text)
      ensures seen == old(seen) + {text}
      ensures hash(text) in old(backwards) ==> backwards == old(backwards)
      ensures hash(text) !in old(backwards) ==> backwards == old(backwards)[hash(text) := text]
      ensures forall h :: h in old(backwards) ==> h in backwards && backwards[h] == old(backwards)[h]
      ensures Display(id).Some?
      ensures (forall t :: t in old(seen) ==> hash(t) != hash(text)) ==> Display(id) == Some(text)
    {
      var h := hash(text);
      if h !in backwards {
        backwards := backwards[h := text];
      }
      seen := seen + {text};
      id := Identifier(h);
    }

    /** `Display for Identifier`: read the text back; `None` is the `unwrap` panic. */
    function Display(id: Identifier): (r: Option<string>)
      reads this
      requires Valid()
      ensures r.Some? <==> id.hashedIdent in backwards
      ensures r.Some? ==> r.value in seen && hash(r.value) == id.hashedIdent
    {
      if id.hashedIdent in backwards then Some(backwards[id.hashedIdent]) else None
    }

    /** `Identifier::for_*`: intern the builtin's fixed text. */
    method ForBuiltin(b: Builtin) returns (id: Identifier)
      requires Valid()
      modifies this
      ensures Valid()
      ensures id == IdentifierOf(hash, BuiltinText(b))
      ensures seen == old(seen) + {BuiltinText(b)}
      ensures forall h :: h in old(backwards) ==> h in backwards && backwards[h] == old(backwards)[h]
      ensures Display(id).Some?
    {
      id := New(BuiltinText(b));
    }
  }

  /** Every text ever interned displays as some text with the same hash. */
  lemma DisplaySeen(interner: Interner, text: string)
    requires interner.Valid() && text in interner.seen
    ensures interner.Display(IdentifierOf(interner.hash, text)).Some?
    ensures interner.hash(interner.Display(IdentifierOf(interner.hash, text)).value) == interner.hash(text)
  {
  }

  /** Interning the same text twice gives the same identifier, and the map ends as after one call. */
  method NewTwice(interner: Interner, text: string) returns (first: Identifier, second: Identifier)
    requires interner.Valid()
    modifies interner
    ensures first == second
    ensures interner.backwards ==
      if interner.hash(text) in old(interner.backwards) then old(interner.backwards)
      else old(interner.backwards)[interner.hash(text) := text]
  {
    first := interner.New(text);
    ghost var between := interner.backwards;
    second := interner.New(text);
    assert interner.backwards == between;
  }
}
