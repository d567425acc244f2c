/** `CrptApi.validate`: the required-field checks run on an
    `LP_INTRODUCE_GOODS` document before it is sent. Every failed check adds
    one message; a non-empty list becomes one `IllegalArgumentException`
    whose message joins them with "; ". */
module Validation {
  import opened Wrappers
  import opened Strings

  /** The fields of a product that `validate` reads. */
  datatype Product = Product(tnvedCode: Option<string>, uitCode: Option<string>, uituCode: Option<string>)

  /** The document's `description` block. */
  datatype Description = Description(participantInn: Option<string>)

  /** The fields of `LpIntroduceGoodsDocument` that `validate` reads; each
      may be null, and so may each element of the product list, which its
      setter takes as given. */
  datatype Document = Document(
    description: Option<Description>,
    docId: Option<string>,
    docStatus: Option<string>,
    docType: Option<string>,
    ownerInn: Option<string>,
    participantInn: Option<string>,
    producerInn: Option<string>,
    productionDate: Option<string>,
    productionType: Option<string>,
    products: Option<seq<Option<Product>>>)

  /** The required fields outside the product list, in checking order. */
  datatype Field =
    | DescriptionParticipantInn | DocId | DocStatus | DocType
    | OwnerInn | ParticipantInn | ProducerInn | ProductionDate | ProductionType

  /** One failed check; `Message` gives the text the source adds for it. */
  datatype Violation =
    | Required(field: Field)
    | ProductsEmpty
    | TnvedRequired(index: nat)
    | ExactlyOneCode(index: nat)

  /** The name under which a field appears in its message. */
  function FieldName(f: Field): string {
    match f
    case DescriptionParticipantInn => "description.participantInn"
    case DocId => "doc_id"
    case DocStatus => "doc_status"
    case DocType => "doc_type"
    case OwnerInn => "owner_inn"
    case ParticipantInn => "participant_inn"
    case ProducerInn => "producer_inn"
    case ProductionDate => "production_date"
    case ProductionType => "production_type"
  }

  /** The message the source adds to its error list for a violation. */
  function Message(v: Violation): string {
    match v
    case Required(f) => FieldName(f) + " is required"
    case ProductsEmpty => "products must not be empty"
    case TnvedRequired(i) => "products[" + DecimalString(i) + "].tnved_code is required"
    case ExactlyOneCode(i) => "products[" + DecimalString(i) + "]: exactly one of uit_code or uitu_code is required"
  }

  /** `f` applied to each element, in order. */
  function Map<T, U>(f: T -> U, xs: seq<T>): (r: seq<U>)
    ensures |r| == |xs| && forall i :: 0 <= i < |xs| ==> r[i] == f(xs[i])
  {
    if xs == [] then [] else Map(f, xs[..|xs| - 1]) + [f(xs[|xs| - 1])]
  }

  /** The messages of a list of violations, in order. */
  function Messages(vs: seq<Violation>): (r: seq<string>)
    ensures |r| == |vs| && forall i :: 0 <= i < |vs| ==> r[i] == Message(vs[i])
  {
    Map(Message, vs)
  }

  /** The value of a required field. */
  function FieldValue(d: Document, f: Field): Option<string> {
    match f
    case DescriptionParticipantInn => if d.description.None? then None else d.description.value.participantInn
    case DocId => d.docId
    case DocStatus => d.docStatus
    case DocType => d.docType
    case OwnerInn => d.ownerInn
    case ParticipantInn => d.participantInn
    case ProducerInn => d.producerInn
    case ProductionDate => d.productionDate
    case ProductionType => d.productionType
  }

  // ---- What a valid document is, stated without the error list ----

  /** A product names its commodity code and exactly one of its two
      identification codes. */
  predicate ProductValid(p: Product) {
    !IsBlank(p.tnvedCode) && IsBlank(p.uitCode) != IsBlank(p.uituCode)
  }

  /** Every required field is present and not blank, and the product list
      is non-empty with every product present and valid. */
  predicate WellFormed(d: Document) {
    && (forall f: Field :: !IsBlank(FieldValue(d, f)))
    && d.products.Some? && |d.products.value| > 0
    && forall i :: 0 <= i < |d.products.value| ==> d.products.value[i].Some? && ProductValid(d.products.value[i].value)
  }

  /** No element of a product list is null. */
  predicate NoNullProduct(ps: seq<Option<Product>>) {
    forall i :: 0 <= i < |ps| ==> ps[i].Some?
  }

  /** The document has a product list with a null element, on which the loop
      over products dereferences null. */
  predicate HasNullProduct(d: Document) {
    d.products.Some? && !NoNullProduct(d.products.value)
  }

  // ---- The violations, in the order the checks run ----

  /** The one-element list a failed check contributes. */
  function Check(failed: bool, v: Violation): seq<Violation> {
    if failed then [v] else []
  }

  /** The violation of a required field, if it is blank. */
  function FieldCheck(d: Document, f: Field): seq<Violation> {
    Check(IsBlank(FieldValue(d, f)), Required(f))
  }

  /** The required fields outside the product list, in checking order. */
  const RequiredFields: seq<Field> :=
    [DescriptionParticipantInn, DocId, DocStatus, DocType, OwnerInn, ParticipantInn, ProducerInn, ProductionDate, ProductionType]

  /** The violations of the first n required fields, in checking order. */
  function FieldViolations(d: Document, n: nat): seq<Violation>
    requires n <= |RequiredFields|
  {
    if n == 0 then [] else FieldViolations(d, n - 1) + FieldCheck(d, RequiredFields[n - 1])
  }

  /** The violations of the fields outside the product list. */
  function HeaderViolations(d: Document): seq<Violation> {
    FieldViolations(d, |RequiredFields|)
  }

  /** The violations of the product at index i; a null product is never
      checked, since the loop stops on it. */
  function ProductViolationsAt(i: nat, p: Option<Product>): seq<Violation> {
    if p.None? then []
    else
      Check(IsBlank(p.value.tnvedCode), TnvedRequired(i))
      + Check(!IsBlank(p.value.uitCode) == !IsBlank(p.value.uituCode), ExactlyOneCode(i))
  }

  /** The lists `f` gives the first n elements of `xs`, each with its index,
      joined in index order. */
  function InOrder<T, V>(f: (nat, T) -> seq<V>, xs: seq<T>, n: nat): seq<V>
    requires n <= |xs|
  {
    if n == 0 then [] else InOrder(f, xs, n - 1) + f(n - 1, xs[n - 1])
  }

  /** The violations of the first n products, in index order. */
  function ProductViolations(ps: seq<Option<Product>>, n: nat): seq<Violation>
    requires n <= |ps|
  {
    InOrder(ProductViolationsAt, ps, n)
  }

  /** Every violation `validate` records for a document without a null
      product, in order: each blank required field is reported under its
      name and no other is; an empty or missing product list is reported,
      and only then; a product is reported only by the index of a product
      in the list, for a blank commodity code exactly when its code is
      blank, and for its identification codes exactly when both or neither
      is present. */
  function Violations(d: Document): (r: seq<Violation>)
    ensures forall f: Field :: Required(f) in r <==> IsBlank(FieldValue(d, f))
    ensures ProductsEmpty in r <==> d.products.None? || d.products.value == []
    ensures forall v :: v in r && (v.TnvedRequired? || v.ExactlyOneCode?) ==> d.products.Some? && v.index < |d.products.value|
    ensures d.products.Some? ==> forall i :: 0 <= i < |d.products.value| && d.products.value[i].Some? ==>
              (TnvedRequired(i) in r <==> IsBlank(d.products.value[i].value.tnvedCode))
    ensures d.products.Some? ==> forall i :: 0 <= i < |d.products.value| && d.products.value[i].Some? ==>
              (ExactlyOneCode(i) in r <==> IsBlank(d.products.value[i].value.uitCode) == IsBlank(d.products.value[i].value.uituCode))
  {
    HeaderReportsExactlyBlank(d);
    if d.products.None? || d.products.value == [] then HeaderViolations(d) + [ProductsEmpty]
    else
      ProductViolationsInRange(d.products.value, |d.products.value|);
      ProductReportsExactlyInvalid(d.products.value, |d.products.value|);
      HeaderViolations(d) + ProductViolations(d.products.value, |d.products.value|)
  }

  // ---- Properties of the violation list ----

  /** One product adds nothing exactly when it is valid (or null, and so
      never checked). */
  lemma ProductViolationsAtEmptyIffValid(i: nat, p: Option<Product>)
    ensures ProductViolationsAt(i, p) == [] <==> p.None? || ProductValid(p.value)
  {
  }

  /** The joined lists are empty exactly when each of them is. */
  lemma {:induction false} InOrderEmptyIff<T, V>(f: (nat, T) -> seq<V>, xs: seq<T>, n: nat)
    requires n <= |xs|
    ensures InOrder(f, xs, n) == [] <==> forall i :: 0 <= i < n ==> f(i, xs[i]) == []
  {
    if n > 0 {
      InOrderEmptyIff(f, xs, n - 1);
      assert |InOrder(f, xs, n)| == |InOrder(f, xs, n - 1)| + |f(n - 1, xs[n - 1])|;
    }
  }

  /** The first n products add nothing exactly when all of them are valid. */
  lemma ProductViolationsEmptyIffValid(ps: seq<Option<Product>>, n: nat)
    requires n <= |ps|
    ensures ProductViolations(ps, n) == [] <==> forall i :: 0 <= i < n ==> ps[i].None? || ProductValid(ps[i].value)
  {
    InOrderEmptyIff(ProductViolationsAt, ps, n);
    forall i | 0 <= i < n ensures ProductViolationsAt(i, ps[i]) == [] <==> ps[i].None? || ProductValid(ps[i].value) {
      ProductViolationsAtEmptyIffValid(i, ps[i]);
    }
  }

  /** The first n required fields add nothing exactly when all of them are
      filled. */
  lemma {:induction false} FieldViolationsEmptyIffFilled(d: Document, n: nat)
    requires n <= |RequiredFields|
    ensures FieldViolations(d, n) == [] <==> forall k :: 0 <= k < n ==> !IsBlank(FieldValue(d, RequiredFields[k]))
  {
    if n > 0 {
      var prev, last := FieldViolations(d, n - 1), FieldCheck(d, RequiredFields[n - 1]);
      FieldViolationsEmptyIffFilled(d, n - 1);
      assert FieldViolations(d, n) == prev + last;
      assert |FieldViolations(d, n)| == |prev| + |last|;
      assert last == [] <==> !IsBlank(FieldValue(d, RequiredFields[n - 1]));
      if prev == [] && last == [] {
        forall k | 0 <= k < n ensures !IsBlank(FieldValue(d, RequiredFields[k])) {
          if k < n - 1 {
            assert !IsBlank(FieldValue(d, RequiredFields[k]));
          }
        }
      }
    }
  }

  /** The position of a field in `RequiredFields`. */
  function FieldIndex(f: Field): (k: nat)
    ensures k < |RequiredFields| && RequiredFields[k] == f
  {
    match f
    case DescriptionParticipantInn => 0
    case DocId => 1
    case DocStatus => 2
    case DocType => 3
    case OwnerInn => 4
    case ParticipantInn => 5
    case ProducerInn => 6
    case ProductionDate => 7
    case ProductionType => 8
  }

  /** The header adds nothing exactly when every required field is filled. */
  lemma HeaderViolationsEmptyIffFilled(d: Document)
    ensures HeaderViolations(d) == [] <==> forall f: Field :: !IsBlank(FieldValue(d, f))
  {
    FieldViolationsEmptyIffFilled(d, |RequiredFields|);
    if HeaderViolations(d) == [] {
      forall f: Field ensures !IsBlank(FieldValue(d, f)) {
        assert RequiredFields[FieldIndex(f)] == f;
      }
    }
  }

  /** A document without a null product has no violation exactly when it
      is well formed. */
  lemma ViolationsEmptyIffWellFormed(d: Document)
    ensures Violations(d) == [] && !HasNullProduct(d) <==> WellFormed(d)
  {
    HeaderViolationsEmptyIffFilled(d);
    if d.products.Some? && d.products.value != [] {
      ProductViolationsEmptyIffValid(d.products.value, |d.products.value|);
    }
  }

  /** A blank required field among the first n is reported. */
  lemma {:induction false} BlankFieldReported(d: Document, n: nat, k: nat)
    requires k < n <= |RequiredFields|
    requires IsBlank(FieldValue(d, RequiredFields[k]))
    ensures Required(RequiredFields[k]) in FieldViolations(d, n)
  {
    if k < n - 1 {
      BlankFieldReported(d, n - 1, k);
    }
  }

  /** Only blank required fields are reported, each under its own name. */
  lemma {:induction false} FieldViolationsOnlyBlank(d: Document, n: nat)
    requires n <= |RequiredFields|
    ensures forall v :: v in FieldViolations(d, n) ==> v.Required? && IsBlank(FieldValue(d, v.field))
  {
    if n > 0 {
      FieldViolationsOnlyBlank(d, n - 1);
    }
  }

  /** The checks outside the product list report exactly the blank required
      fields, and nothing else. */
  lemma HeaderReportsExactlyBlank(d: Document)
    ensures forall f: Field :: Required(f) in HeaderViolations(d) <==> IsBlank(FieldValue(d, f))
    ensures forall v :: v in HeaderViolations(d) ==> v.Required?
  {
    FieldViolationsOnlyBlank(d, |RequiredFields|);
    forall f: Field | IsBlank(FieldValue(d, f)) ensures Required(f) in HeaderViolations(d) {
      BlankFieldReported(d, |RequiredFields|, FieldIndex(f));
    }
  }

  /** A product with both identification codes, or with neither, is reported
      by its index. */
  lemma {:induction false} AmbiguousCodesReported(ps: seq<Option<Product>>, n: nat, i: nat)
    requires i < n <= |ps|
    requires ps[i].Some? && IsBlank(ps[i].value.uitCode) == IsBlank(ps[i].value.uituCode)
    ensures ExactlyOneCode(i) in ProductViolations(ps, n)
  {
    if i < n - 1 {
      AmbiguousCodesReported(ps, n - 1, i);
    }
  }

  /** A product without a commodity code is reported by its index. */
  lemma {:induction false} MissingTnvedReported(ps: seq<Option<Product>>, n: nat, i: nat)
    requires i < n <= |ps|
    requires ps[i].Some? && IsBlank(ps[i].value.tnvedCode)
    ensures TnvedRequired(i) in ProductViolations(ps, n)
  {
    if i < n - 1 {
      MissingTnvedReported(ps, n - 1, i);
    }
  }

  /** Only the products actually checked can be reported: every product
      violation names an index below n. */
  lemma {:induction false} ProductViolationsInRange(ps: seq<Option<Product>>, n: nat)
    requires n <= |ps|
    ensures forall v :: v in ProductViolations(ps, n) ==> (v.TnvedRequired? || v.ExactlyOneCode?) && v.index < n
  {
    if n > 0 {
      ProductViolationsInRange(ps, n - 1);
    }
  }

  /** Among the first n products, a present product is reported for its
      commodity code exactly when that code is blank, and for its
      identification codes exactly when both or neither is present. */
  lemma {:induction false} ProductReportsExactlyInvalid(ps: seq<Option<Product>>, n: nat)
    requires n <= |ps|
    ensures forall i :: 0 <= i < n && ps[i].Some? ==>
              (TnvedRequired(i) in ProductViolations(ps, n) <==> IsBlank(ps[i].value.tnvedCode))
    ensures forall i :: 0 <= i < n && ps[i].Some? ==>
              (ExactlyOneCode(i) in ProductViolations(ps, n) <==> IsBlank(ps[i].value.uitCode) == IsBlank(ps[i].value.uituCode))
  {
    forall i | 0 <= i < n && ps[i].Some?
      ensures TnvedRequired(i) in ProductViolations(ps, n) <==> IsBlank(ps[i].value.tnvedCode)
      ensures ExactlyOneCode(i) in ProductViolations(ps, n) <==> IsBlank(ps[i].value.uitCode) == IsBlank(ps[i].value.uituCode)
    {
      ProductReportedAt(ps, n, i);
    }
  }

  /** The same for one present product i among the first n. */
  lemma {:induction false} ProductReportedAt(ps: seq<Option<Product>>, n: nat, i: nat)
    requires i < n <= |ps| && ps[i].Some?
    ensures TnvedRequired(i) in ProductViolations(ps, n) <==> IsBlank(ps[i].value.tnvedCode)
    ensures ExactlyOneCode(i) in ProductViolations(ps, n) <==> IsBlank(ps[i].value.uitCode) == IsBlank(ps[i].value.uituCode)
  {
    var prev, last := ProductViolations(ps, n - 1), ProductViolationsAt(n - 1, ps[n - 1]);
    assert ProductViolations(ps, n) == prev + last;
    if i < n - 1 {
      ProductReportedAt(ps, n - 1, i);
      assert TnvedRequired(i) !in last && ExactlyOneCode(i) !in last;
    } else {
      ProductViolationsInRange(ps, n - 1);
      assert TnvedRequired(i) !in prev && ExactlyOneCode(i) !in prev;
    }
  }

  // ---- The operation ----

  /** `validate`: throws `IllegalArgumentException` for a null document;
      throws `NullPointerException` when the product list holds a null,
      which the loop over products dereferences; otherwise throws
      `IllegalArgumentException` for a document with at least one violation,
      with their messages joined by "; ", and returns normally for one
      without. */
  method Validate(document: Option<Document>) returns (outcome: Outcome)
    ensures document.None? ==> outcome == Fail(IllegalArgument("document must not be null"))
    ensures document.Some? && HasNullProduct(document.value) ==> outcome == Fail(NullDereference)
    ensures document.Some? && !HasNullProduct(document.value) ==>
              outcome == if Violations(document.value) == [] then Pass
                         else Fail(IllegalArgument(Join("; ", Messages(Violations(document.value)))))
    ensures outcome.Pass? <==> document.Some? && WellFormed(document.value)
  {
    if document.None? {
      return Fail(IllegalArgument("document must not be null"));
    }
    var d := document.value;
    var errors := CollectHeaderViolations(d);
    var products := d.products;
    if products.None? || products.value == [] {
      errors := errors + [ProductsEmpty];
    } else {
      var checked := AppendProductViolations(products.value, errors);
      if checked.Failure? {
        return Fail(checked.error);
      }
      errors := checked.value;
    }
    ViolationsEmptyIffWellFormed(d);
    if errors != [] {
      return Fail(IllegalArgument(Join("; ", Messages(errors))));
    }
    return Pass;
  }

  /** The checks of `validate` on the fields outside the product list, in
      source order, each recording its violation when the field is blank. */
  method CollectHeaderViolations(d: Document) returns (errors: seq<Violation>)
    ensures errors == HeaderViolations(d)
  {
    errors := [];
    if d.description.None? || IsBlank(d.description.value.participantInn) {
      errors := errors + [Required(DescriptionParticipantInn)];
    }
    assert errors == FieldViolations(d, 1);
    if IsBlank(d.docId) { errors := errors + [Required(DocId)]; }
    assert errors == FieldViolations(d, 2);
    if IsBlank(d.docStatus) { errors := errors + [Required(DocStatus)]; }
    assert errors == FieldViolations(d, 3);
    if IsBlank(d.docType) { errors := errors + [Required(DocType)]; }
    assert errors == FieldViolations(d, 4);
    if IsBlank(d.ownerInn) { errors := errors + [Required(OwnerInn)]; }
    assert errors == FieldViolations(d, 5);
    if IsBlank(d.participantInn) { errors := errors + [Required(ParticipantInn)]; }
    assert errors == FieldViolations(d, 6);
    if IsBlank(d.producerInn) { errors := errors + [Required(ProducerInn)]; }
    assert errors == FieldViolations(d, 7);
    if IsBlank(d.productionDate) { errors := errors + [Required(ProductionDate)]; }
    assert errors == FieldViolations(d, 8);
    if IsBlank(d.productionType) { errors := errors + [Required(ProductionType)]; }
    assert errors == FieldViolations(d, 9);
  }

  /** The loop of `validate` over the product list: appends, product by
      product, a violation for a blank commodity code and one for a product
      whose identification codes are both present or both absent; stops
      with `NullPointerException` at the first null product. */
  method AppendProductViolations(ps: seq<Option<Product>>, errors: seq<Violation>) returns (result: Result<seq<Violation>>)
    ensures NoNullProduct(ps) ==> result == Success(errors + ProductViolations(ps, |ps|))
    ensures !NoNullProduct(ps) ==> result == Failure(NullDereference)
  {
    var collected := errors;
    var i := 0;
    while i < |ps|
      invariant 0 <= i <= |ps|
      invariant forall k :: 0 <= k < i ==> ps[k].Some?
      invariant collected == errors + ProductViolations(ps, i)
    {
      if ps[i].None? {
        return Failure(NullDereference);
      }
      var product := ps[i].value;
      if IsBlank(product.tnvedCode) {
        collected := collected + [TnvedRequired(i)];
      }
      var hasUit := !IsBlank(product.uitCode);
      var hasUitu := !IsBlank(product.uituCode);
      if hasUit == hasUitu {
        collected := collected + [ExactlyOneCode(i)];
      }
      i := i + 1;
    }
    return Success(collected);
  }
}
