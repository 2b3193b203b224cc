/** The entities of the backend schema as the client sees them, and the
    shape of a remote store reply.

    A product carries the fields of the `product` model: its identifier, the
    identifier of the owning supplier, and a set of optional attributes.
    Every attribute but the two identifiers may be absent in a record the
    store returns, so each is an `Option`; the identifiers are taken to be
    present, as the page assumes wherever it uses them. */
module Schema {

  datatype Option<T> = None | Some(value: T)

  /** A product record. `dose`, `quantity` and `numSold` are integers in the
      schema, `cost` and `retail` floating-point numbers (modelled as reals),
      `expiration` a calendar date kept as its text, `notes` free text. */
  datatype Product = Product(
    id: string,
    supplierId: string,
    name: Option<string>,
    dose: Option<int>,
    quantity: Option<int>,
    expiration: Option<string>,
    cost: Option<real>,
    retail: Option<real>,
    numSold: Option<int>,
    notes: Option<string>)

  /** The attributes a field-level update may target. */
  datatype Field = Name | Dose | Quantity | Expiration | Cost | Retail | NumSold | Notes

  /** The value of one attribute as the client compares and sends it. An
      absent attribute reads as `Missing`. */
  datatype FieldValue = Missing | Int(i: int) | Real(r: real) | Text(s: string)

  /** What the store answers to a create, update or delete request: the
      record it returns, a reply without a record, or a failure. */
  datatype StoreResult<T> = Returned(data: T) | NoData | Failed

  /** The property name of a field, as used in the update request and in the
      confirmation message. */
  function FieldName(f: Field): string {
    match f
    case Name => "name"
    case Dose => "dose"
    case Quantity => "quantity"
    case Expiration => "expiration"
    case Cost => "cost"
    case Retail => "retail"
    case NumSold => "numSold"
    case Notes => "notes"
  }

  /** `v` is a value of the kind field `f` holds. */
  predicate Fits(f: Field, v: FieldValue) {
    match f
    case Name | Expiration | Notes => v.Text?
    case Dose | Quantity | NumSold => v.Int?
    case Cost | Retail => v.Real?
  }

  function IntValue(o: Option<int>): FieldValue {
    match o
    case Some(i) => Int(i)
    case None => Missing
  }

  function RealValue(o: Option<real>): FieldValue {
    match o
    case Some(r) => Real(r)
    case None => Missing
  }

  function TextValue(o: Option<string>): FieldValue {
    match o
    case Some(s) => Text(s)
    case None => Missing
  }

  /** The current value of attribute `f` of `p` (`product[field]`). */
  function GetField(p: Product, f: Field): (v: FieldValue)
    ensures v == Missing || Fits(f, v)
  {
    match f
    case Name => TextValue(p.name)
    case Dose => IntValue(p.dose)
    case Quantity => IntValue(p.quantity)
    case Expiration => TextValue(p.expiration)
    case Cost => RealValue(p.cost)
    case Retail => RealValue(p.retail)
    case NumSold => IntValue(p.numSold)
    case Notes => TextValue(p.notes)
  }

  /** The record the store holds after a partial update that sets attribute
      `f` of `p` to `v` and leaves everything else as it was. */
  function SetField(p: Product, f: Field, v: FieldValue): (q: Product)
    requires Fits(f, v)
    ensures q.id == p.id && q.supplierId == p.supplierId
    ensures GetField(q, f) == v
    ensures forall g :: g != f ==> GetField(q, g) == GetField(p, g)
  {
    match f
    case Name => p.(name := Some(v.s))
    case Dose => p.(dose := Some(v.i))
    case Quantity => p.(quantity := Some(v.i))
    case Expiration => p.(expiration := Some(v.s))
    case Cost => p.(cost := Some(v.r))
    case Retail => p.(retail := Some(v.r))
    case NumSold => p.(numSold := Some(v.i))
    case Notes => p.(notes := Some(v.s))
  }

  /** The identifiers of a product list, position by position. */
  function Ids(l: seq<Product>): (r: seq<string>)
    ensures |r| == |l|
    ensures forall i :: 0 <= i < |l| ==> r[i] == l[i].id
  {
    seq(|l|, i requires 0 <= i < |l| => l[i].id)
  }
}
