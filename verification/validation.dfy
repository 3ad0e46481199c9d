/**
  The bean-validation constraints on the service's request records
  (TransferInput, CreateWalletInput and Page), as the set of violations a
  validator reports for a request. A request passes when that set is empty;
  the operations further on take a passing request as their precondition.
 */
module Validation {
  import opened Domain
  import Paging

  datatype Field = FromIdField | ToIdField | AmountField | EmailField | LimitField | OffsetField

  /** One reported constraint violation: the constraint and the field it is on. */
  datatype Violation =
    | NotNull(field: Field)       // "must not be null"
    | MinOne(field: Field)        // "must be greater than or equal to 1"
    | NotBlank(field: Field)      // "must not be blank"
    | EmailFormat(field: Field)   // "must be a well-formed email address"
    | AtMost200(field: Field)     // "must be less than or equal to 200"

  const MaxPageValue: int := 200

  /** A minimum constraint accepts null; only a present value below 1 violates it. */
  function MinOneCheck(field: Field, value: Option<Amount>): set<Violation> {
    if value.Some? && value.value < 1.0 then {MinOne(field)} else {}
  }

  function NotNullCheck<T>(field: Field, value: Option<T>): set<Violation> {
    if value.None? then {NotNull(field)} else {}
  }

  // ---------------------------------------------------------------- TransferInput

  datatype TransferInput = TransferInput(fromId: Option<Id>, toId: Option<Id>, amount: Option<Amount>)

  function TransferViolations(input: TransferInput): set<Violation> {
    NotNullCheck(FromIdField, input.fromId)
    + NotNullCheck(ToIdField, input.toId)
    + NotNullCheck(AmountField, input.amount)
    + MinOneCheck(AmountField, input.amount)
  }

  predicate ValidTransfer(input: TransferInput) {
    TransferViolations(input) == {}
  }

  /** A transfer request passes exactly when both ids and the amount are present
      and the amount is at least 1. Equal ids pass: that is the service's check. */
  lemma ValidTransferIff(input: TransferInput)
    ensures ValidTransfer(input) <==>
              input.fromId.Some? && input.toId.Some? && input.amount.Some? && input.amount.value >= 1.0
  {
    if input.fromId.None? { assert NotNull(FromIdField) in TransferViolations(input); }
    if input.toId.None? { assert NotNull(ToIdField) in TransferViolations(input); }
    if input.amount.None? { assert NotNull(AmountField) in TransferViolations(input); }
    if input.amount.Some? && input.amount.value < 1.0 { assert MinOne(AmountField) in TransferViolations(input); }
  }

  /** With everything else in order, a single missing field or a single amount
      below 1 yields exactly one violation, naming that field and constraint. */
  lemma TransferSingleViolation(from: Id, to: Id, amount: Amount)
    requires amount >= 1.0
    ensures TransferViolations(TransferInput(None, Some(to), Some(amount))) == {NotNull(FromIdField)}
    ensures TransferViolations(TransferInput(Some(from), None, Some(amount))) == {NotNull(ToIdField)}
    ensures TransferViolations(TransferInput(Some(from), Some(to), None)) == {NotNull(AmountField)}
    ensures TransferViolations(TransferInput(Some(from), Some(to), Some(0.0))) == {MinOne(AmountField)}
    ensures TransferViolations(TransferInput(Some(from), Some(to), Some(-100.0))) == {MinOne(AmountField)}
    ensures ValidTransfer(TransferInput(Some(from), Some(to), Some(100.0)))
    ensures ValidTransfer(TransferInput(Some(from), Some(from), Some(amount)))
  {
  }

  // ------------------------------------------------------------ CreateWalletInput

  datatype CreateWalletInput = CreateWalletInput(email: Option<string>, amount: Option<Amount>)

  /** What the not-blank check trims away: every character up to and including
      the space, U+0000 to U+0020 (Java's `String.trim`). */
  predicate IsWhitespace(c: char) {
    c <= ' '
  }

  /** Null, empty, or nothing left after trimming: what the not-blank constraint rejects. */
  predicate Blank(email: Option<string>) {
    email.None? || forall i :: 0 <= i < |email.value| ==> IsWhitespace(email.value[i])
  }

  /** The email-format constraint accepts null and the empty string and otherwise
      asks `wellFormed`, which stands for the validator's address pattern. */
  function CreateWalletViolations(input: CreateWalletInput, wellFormed: string -> bool): set<Violation> {
    (if Blank(input.email) then {NotBlank(EmailField)} else {})
    + (if input.email.Some? && |input.email.value| > 0 && !wellFormed(input.email.value)
       then {EmailFormat(EmailField)} else {})
    + NotNullCheck(AmountField, input.amount)
    + MinOneCheck(AmountField, input.amount)
  }

  predicate ValidCreateWallet(input: CreateWalletInput, wellFormed: string -> bool) {
    CreateWalletViolations(input, wellFormed) == {}
  }

  /** A wallet request passes exactly when the email is present, not blank and
      well formed and the amount is present and at least 1: every minted wallet
      therefore starts with a positive balance. */
  lemma ValidCreateWalletIff(input: CreateWalletInput, wellFormed: string -> bool)
    ensures ValidCreateWallet(input, wellFormed) <==>
              && input.email.Some? && !Blank(input.email) && wellFormed(input.email.value)
              && input.amount.Some? && input.amount.value >= 1.0
    ensures ValidCreateWallet(input, wellFormed) ==> input.amount.value > 0.0
  {
    var v := CreateWalletViolations(input, wellFormed);
    if Blank(input.email) { assert NotBlank(EmailField) in v; }
    if input.email.Some? && |input.email.value| > 0 && !wellFormed(input.email.value) { assert EmailFormat(EmailField) in v; }
    if input.amount.None? { assert NotNull(AmountField) in v; }
    if input.amount.Some? && input.amount.value < 1.0 { assert MinOne(AmountField) in v; }
    if input.email.Some? && !Blank(input.email) { assert |input.email.value| > 0; }
  }

  /** Null and empty emails draw only the not-blank violation; a malformed one
      draws only the format violation; a missing or too small amount draws one
      violation on the amount. */
  lemma CreateWalletSingleViolation(wellFormed: string -> bool)
    requires wellFormed("test@example.com") && !wellFormed("invalid-email")
    ensures CreateWalletViolations(CreateWalletInput(None, Some(100.0)), wellFormed) == {NotBlank(EmailField)}
    ensures CreateWalletViolations(CreateWalletInput(Some(""), Some(100.0)), wellFormed) == {NotBlank(EmailField)}
    ensures CreateWalletViolations(CreateWalletInput(Some("invalid-email"), Some(100.0)), wellFormed) == {EmailFormat(EmailField)}
    ensures CreateWalletViolations(CreateWalletInput(Some("test@example.com"), None), wellFormed) == {NotNull(AmountField)}
    ensures CreateWalletViolations(CreateWalletInput(Some("test@example.com"), Some(0.0)), wellFormed) == {MinOne(AmountField)}
    ensures CreateWalletViolations(CreateWalletInput(Some("test@example.com"), Some(-100.0)), wellFormed) == {MinOne(AmountField)}
    ensures ValidCreateWallet(CreateWalletInput(Some("test@example.com"), Some(100.0)), wellFormed)
  {
    assert !Blank(Some("invalid-email")) by { assert !IsWhitespace("invalid-email"[0]); }
    assert !Blank(Some("test@example.com")) by { assert !IsWhitespace("test@example.com"[0]); }
  }

  // ------------------------------------------------------------------------ Page

  datatype PageInput = PageInput(limit: Option<int>, offset: Option<int>)

  /** Both parameters are optional and only bounded above. */
  function PageViolations(page: PageInput): set<Violation> {
    (if page.limit.Some? && page.limit.value > MaxPageValue then {AtMost200(LimitField)} else {})
    + (if page.offset.Some? && page.offset.value > MaxPageValue then {AtMost200(OffsetField)} else {})
  }

  predicate ValidPage(page: PageInput) {
    PageViolations(page) == {}
  }

  lemma ValidPageIff(page: PageInput)
    ensures ValidPage(page) <==>
              (page.limit.None? || page.limit.value <= MaxPageValue) && (page.offset.None? || page.offset.value <= MaxPageValue)
    ensures ValidPage(PageInput(None, None))
    ensures ValidPage(PageInput(Some(-5), Some(-5))) && ValidPage(PageInput(Some(0), Some(0)))
    ensures !ValidPage(PageInput(Some(201), None)) && !ValidPage(PageInput(None, Some(201)))
  {
    if page.limit.Some? && page.limit.value > MaxPageValue { assert AtMost200(LimitField) in PageViolations(page); }
    if page.offset.Some? && page.offset.value > MaxPageValue { assert AtMost200(OffsetField) in PageViolations(page); }
    assert AtMost200(LimitField) in PageViolations(PageInput(Some(201), None));
    assert AtMost200(OffsetField) in PageViolations(PageInput(None, Some(201)));
  }

  /** A page that passes validation and is then normalised by a store read asks
      for between 1 and 200 rows, starting between 0 and 200 rows in. */
  lemma EffectivePageBounds(page: PageInput)
    requires ValidPage(page)
    ensures 1 <= Paging.NormalizeLimit(page.limit) <= MaxPageValue
    ensures 0 <= Paging.NormalizeOffset(page.offset) <= MaxPageValue
  {
    ValidPageIff(page);
  }
}
