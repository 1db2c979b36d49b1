/** `FilenameValidator`: a note title may not contain characters that are
    forbidden in file names, and may not end with a dot. */
module Validators {
  import opened Common

  /** The forbidden characters, in the order the validator checks them. */
  const NotAllowedSymbols: string := "/\\<>:|?*\0\"%+!@~"

  const MessageNotAllowed: string := "Symbol \"%(not_allowed_symbol)s\" is not allowed"
  const MessageEndsWith: string := "Symbol \".\" must not be a last symbol"

  datatype Verdict =
    | Accepted
    | NotAllowedSymbol(symbol: char)  // ValidationError with code `not_allowed_symbol`
    | EndsWithDot                     // ValidationError with code `endswith`

  /** The position in `symbols` of the first one that occurs in `value`. */
  function FirstOccurring(symbols: string, value: string): (r: Option<nat>)
    ensures r.Some? ==> r.value < |symbols| && symbols[r.value] in value
    ensures r.Some? ==> forall j :: 0 <= j < r.value ==> symbols[j] !in value
    ensures r.None? ==> forall j :: 0 <= j < |symbols| ==> symbols[j] !in value
  {
    if symbols == [] then None
    else if symbols[0] in value then Some(0)
    else match FirstOccurring(symbols[1..], value)
      case None => None
      case Some(k) => Some(k + 1)
  }

  /** `FilenameValidator.__call__` with the class's own symbol list. */
  function Validate(value: string): (r: Verdict)
    ensures r.NotAllowedSymbol? ==> r.symbol in NotAllowedSymbols && r.symbol in value
    ensures r == EndsWithDot ==> |value| > 0 && value[|value| - 1] == '.'
    ensures r == Accepted ==>
      (forall j :: 0 <= j < |NotAllowedSymbols| ==> NotAllowedSymbols[j] !in value) && !EndsWith(value, ".")
  {
    match FirstOccurring(NotAllowedSymbols, value)
    case Some(k) => NotAllowedSymbol(NotAllowedSymbols[k])
    case None => if EndsWith(value, ".") then EndsWithDot else Accepted
  }

  /** The three outcomes, each in terms of the value alone: a forbidden
      character anywhere rejects, and the one reported is the earliest in the
      forbidden list that occurs; otherwise a trailing dot rejects; every
      other value, the empty string included, is accepted. */
  lemma ValidateOutcomes(value: string)
    ensures (exists c :: c in NotAllowedSymbols && c in value) <==> Validate(value).NotAllowedSymbol?
    ensures Validate(value).NotAllowedSymbol? ==>
      var c := Validate(value).symbol;
      c in value && c in NotAllowedSymbols &&
      forall j :: 0 <= j < |NotAllowedSymbols| && NotAllowedSymbols[j] == c ==>
        forall i :: 0 <= i < j ==> NotAllowedSymbols[i] !in value
    ensures Validate(value) == EndsWithDot <==>
      (forall c :: c in NotAllowedSymbols ==> c !in value) && |value| > 0 && value[|value| - 1] == '.'
    ensures Validate(value) == Accepted <==>
      (forall c :: c in NotAllowedSymbols ==> c !in value) && (value == [] || value[|value| - 1] != '.')
  {
    var r := FirstOccurring(NotAllowedSymbols, value);
    if r.Some? {
      var k := r.value;
      forall j | 0 <= j < |NotAllowedSymbols| && NotAllowedSymbols[j] == NotAllowedSymbols[k]
        ensures forall i :: 0 <= i < j ==> NotAllowedSymbols[i] !in value
      {
        SymbolsDistinct(j, k);
      }
    }
    if EndsWith(value, ".") {
      assert value[|value| - 1..] == ".";
      assert value[|value| - 1] == '.';
    } else if |value| > 0 {
      assert value[|value| - 1..] == [value[|value| - 1]];
    }
  }

  /** No character appears twice in the forbidden list. */
  lemma SymbolsDistinct(i: nat, j: nat)
    requires i < |NotAllowedSymbols| && j < |NotAllowedSymbols| && NotAllowedSymbols[i] == NotAllowedSymbols[j]
    ensures i == j
  {
  }

  /** The reported symbol follows the list order, not the value's order:
      in ":a/" the ':' comes first, but '/' heads the list. */
  lemma ValidateReportsListOrder()
    ensures Validate(":a/") == NotAllowedSymbol('/')
  {
    assert NotAllowedSymbols[0] == '/' && '/' in ":a/";
  }

  /** A value none of whose characters is forbidden. */
  lemma NoForbiddenCharacter(value: string)
    requires forall i :: 0 <= i < |value| ==> value[i] !in NotAllowedSymbols
    ensures Validate(value) == (if EndsWith(value, ".") then EndsWithDot else Accepted)
  {
    ValidateOutcomes(value);
  }

  lemma ValidateExamples()
    ensures Validate("note.") == EndsWithDot
    ensures Validate("") == Accepted
  {
    ValidateTrailingDot();
    NoForbiddenCharacter("");
  }

  lemma ValidateTrailingDot()
    ensures Validate("note.") == EndsWithDot
  {
    var value := "note.";
    forall i | 0 <= i < |value| ensures value[i] !in NotAllowedSymbols {
      assert value[i] in "note.";
    }
    NoForbiddenCharacter(value);
    assert value[4..] == ".";
  }

  datatype FilenameValidator = FilenameValidator(messages: map<string, string>, notAllowedSymbols: string)

  /** The validator as the class defines it. */
  const Default := FilenameValidator(
    map["not_allowed_symbol" := MessageNotAllowed, "endswith" := MessageEndsWith],
    NotAllowedSymbols)

  /** The right-hand operand of `==`: another validator or any other object. */
  datatype Operand = AValidator(v: FilenameValidator) | OtherObject

  datatype EqResult = Equal(b: bool) | NotImplementedResult

  /** `FilenameValidator.__eq__`. */
  function Eq(self: FilenameValidator, other: Operand): (r: EqResult)
    ensures other.OtherObject? <==> r.NotImplementedResult?
    ensures other.AValidator? ==> r == Equal(self == other.v)
  {
    match other
    case OtherObject => NotImplementedResult
    case AValidator(v) => Equal(self.messages == v.messages && self.notAllowedSymbols == v.notAllowedSymbols)
  }

  /** Equality of validators is an equivalence and coincides with equality
      of the two attributes it compares. */
  lemma EqIsAttributeEquality(a: FilenameValidator, b: FilenameValidator)
    ensures Eq(a, AValidator(a)) == Equal(true)
    ensures Eq(a, AValidator(b)) == Eq(b, AValidator(a))
    ensures Eq(a, AValidator(b)) == Equal(a == b)
  {
  }
}
