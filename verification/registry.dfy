/**
 * The registry's raw input as a YAML loader hands it to either runtime, and
 * the constants both scripts declare identically (`REQUIRED_KEYS`,
 * `KIND_ORDER`, `DESCRIPTION_MAX`).
 */
module Registry {
  import opened Seqs
  import opened Sorting
  import opened Text

  /** A scalar read from YAML. `Num` carries the number as both runtimes print it. */
  datatype Value = Null | Str(s: string) | Bool(b: bool) | Num(literal: string)

  type Fields = map<string, Value>

  /** One element of the top-level YAML sequence. */
  datatype RawEntry = Nil | NotMapping | Mapping(fields: Fields)

  const RequiredKeys: seq<string> := ["name", "kind", "contract", "network", "repo", "description"]
  const KindOrder: seq<string> := ["svg", "utility", "palette", "layout", "other"]
  const DescriptionMax: nat := 140

  /** A key that is absent reads as null in both runtimes. */
  function Field(f: Fields, k: string): Value {
    if k in f then f[k] else Null
  }

  /** String conversion: `${v}` in JavaScript, `to_s` in Ruby (where `nil.to_s` is empty). */
  function Display(v: Value): string {
    match v
    case Null => ""
    case Str(s) => s
    case Bool(b) => if b then "true" else "false"
    case Num(literal) => literal
  }

  /** A required key is missing when it is absent, null, or blank once converted and trimmed. */
  predicate FieldMissing(f: Fields, k: string) {
    Field(f, k).Null? || Trim(Display(Field(f, k))) == []
  }

  /** Position of a kind in the priority list; every unlisted kind shares the rank after it. */
  function Rank(kind: string): (r: nat)
    ensures r <= |KindOrder|
    ensures r < |KindOrder| <==> kind in KindOrder
    ensures r < |KindOrder| ==> KindOrder[r] == kind
  {
    var i := IndexOf(KindOrder, kind);
    if i == -1 then |KindOrder| else i
  }

  /** The display order of kinds: listed kinds by priority, then the others ordinally. */
  predicate KindLe(a: string, b: string) {
    Rank(a) < Rank(b) || (Rank(a) == Rank(b) && StrLe(a, b))
  }

  lemma KindOrderDistinct()
    ensures Distinct(KindOrder)
  {
  }

  lemma KindLeIsTotalOrder()
    ensures IsTotalPreorder(KindLe) && IsAntisymmetric(KindLe)
  {
    StrLeIsTotalOrder();
    forall a, b, c
      ensures TransitiveAt(KindLe, a, b, c)
    {
      assert TransitiveAt(StrLe, a, b, c);
    }
  }

  /** The priority list is itself in display order. */
  lemma KindOrderSorted()
    ensures SortedBy(KindOrder, KindLe)
  {
    KindOrderDistinct();
    forall i, j | 0 <= i < j < |KindOrder|
      ensures KindLe(KindOrder[i], KindOrder[j])
    {
      IndexOfDistinct(KindOrder, i);
      IndexOfDistinct(KindOrder, j);
    }
  }
}
