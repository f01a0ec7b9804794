/** Cell values and rows of the table.  A JavaScript record value is modelled
    as a closed variant; the relational operators the comparator applies to
    it are replaced by an explicit total order in which Null is least. */
module Values {
  import opened Text

  datatype Value = Null | Bool(b: bool) | Int(i: int) | Str(s: string)

  /** A row: a record's own keys, its synthetic `id`, and the cells the
      renderer adds, each mapped to a value. */
  type Row = map<string, Value>

  /** `row[key]`, where a key the row lacks reads as Null (JavaScript's undefined). */
  function Cell(row: Row, key: string): Value {
    if key in row then row[key] else Null
  }

  /** Code-point-wise lexicographic order on strings: a proper prefix comes
      first, otherwise the first differing character decides. */
  predicate StrLess(a: string, b: string)
    decreases |a|
  {
    if a == [] then b != []
    else if b == [] then false
    else if a[0] != b[0] then a[0] < b[0]
    else StrLess(a[1..], b[1..])
  }

  lemma {:induction false} StrLessIrreflexive(a: string)
    ensures !StrLess(a, a)
    decreases |a|
  {
    if a != [] {
      StrLessIrreflexive(a[1..]);
    }
  }

  lemma {:induction false} StrLessTransitive(a: string, b: string, c: string)
    requires StrLess(a, b) && StrLess(b, c)
    ensures StrLess(a, c)
    decreases |a|
  {
    if a != [] && b != [] && c != [] && a[0] == b[0] && b[0] == c[0] {
      StrLessTransitive(a[1..], b[1..], c[1..]);
    }
  }

  lemma {:induction false} StrLessTotal(a: string, b: string)
    ensures a == b || StrLess(a, b) || StrLess(b, a)
    decreases |a|
  {
    if a != [] && b != [] && a[0] == b[0] {
      StrLessTotal(a[1..], b[1..]);
      if a[1..] == b[1..] {
        assert a == [a[0]] + a[1..] && b == [b[0]] + b[1..];
      }
    }
  }

  /** Position of a value's kind in the order: Null, then booleans, numbers, strings. */
  function Rank(v: Value): nat {
    match v
    case Null => 0
    case Bool(_) => 1
    case Int(_) => 2
    case Str(_) => 3
  }

  /** The total order used by the comparator: Null first, then kinds by Rank;
      false before true, numbers numerically, strings lexicographically. */
  predicate Less(x: Value, y: Value)
    ensures Less(x, y) ==> x != y && Rank(x) <= Rank(y)
  {
    if Rank(x) != Rank(y) then Rank(x) < Rank(y)
    else match (x, y)
      case (Bool(a), Bool(b)) => !a && b
      case (Int(a), Int(b)) => a < b
      case (Str(a), Str(b)) => StrLessIrreflexive(a); StrLess(a, b)
      case _ => false
  }

  predicate LessOrEqual(x: Value, y: Value) {
    x == y || Less(x, y)
  }

  /** Less is a strict total order: irreflexive, transitive, and any two
      distinct values are related one way. */
  lemma LessIsStrictTotalOrder(x: Value, y: Value, z: Value)
    ensures !Less(x, x)
    ensures Less(x, y) && Less(y, z) ==> Less(x, z)
    ensures x == y || Less(x, y) || Less(y, x)
  {
    if x.Str? {
      StrLessIrreflexive(x.s);
    }
    if x.Str? && y.Str? && z.Str? && Less(x, y) && Less(y, z) {
      StrLessTransitive(x.s, y.s, z.s);
    }
    if x.Str? && y.Str? {
      StrLessTotal(x.s, y.s);
    }
  }

  /** Null is below every other value. */
  lemma NullLeast(v: Value)
    ensures LessOrEqual(Null, v)
    ensures v != Null ==> Less(Null, v) && !Less(v, Null)
  {
  }

  /** JavaScript's `typeof` of a cell value (`typeof null` is "object"). */
  function TypeOf(v: Value): (t: string)
    ensures t in KnownTypes
  {
    match v
    case Null => "object"
    case Bool(_) => "boolean"
    case Int(_) => "number"
    case Str(_) => "string"
  }

  /** The type names `getLibBadge` relabels. */
  const KnownTypes: set<string> := {"string", "number", "undefined", "object", "boolean"}

  /** The short label shown in a cell's type badge; a type name the switch
      does not list is returned unchanged. */
  function GetLibBadge(t: string): (badge: string)
    ensures t !in KnownTypes ==> badge == t
    ensures t in KnownTypes ==> badge != t && badge !in KnownTypes
  {
    match t
    case "string" => "a-Z"
    case "number" => "0-9"
    case "undefined" => "NaN"
    case "object" => "{ }"
    case "boolean" => " "
    case _ => t
  }

  /** Different kinds of non-null value get different badges. */
  lemma BadgesTellKindsApart(x: Value, y: Value)
    requires x != Null && y != Null
    ensures GetLibBadge(TypeOf(x)) == GetLibBadge(TypeOf(y)) <==> Rank(x) == Rank(y)
  {
  }

  /** The text a cell shows, as template-literal interpolation writes it. */
  function ToString(v: Value): (text: string)
    ensures v.Str? ==> text == v.s
    ensures v.Int? ==> text != [] && (text[0] == '-' <==> v.i < 0)
  {
    match v
    case Null => "null"
    case Bool(b) => if b then "true" else "false"
    case Int(i) => IntToString(i)
    case Str(s) => s
  }

  /** A number's cell text is its decimal form: for a non-negative number it
      reads back as that number, for a negative one it is "-" and the digits
      of its magnitude. */
  lemma NumberTextReadsBack(i: int)
    ensures i >= 0 ==> IsDigits(ToString(Int(i))) && ParseNat(ToString(Int(i))) == i
    ensures i < 0 ==> ToString(Int(i))[0] == '-' && ParseNat(ToString(Int(i))[1..]) == -i
  {
    if i >= 0 {
      ParseNatToString(i);
    } else {
      ParseNatToString(-i);
    }
  }
}
