/** The part of a form's state the fraction elements touch: the error
    recorded for each element, and the value recorded for the element. */
module Form {
  import opened Wrappers

  /** The messages the fraction elements set. */
  datatype Message =
    | InvalidNumber          // set by the core number validation
    | DenominatorEmpty       // denominator zero or empty with a numerator
    | NumeratorRange         // numerator outside the 64-bit range
    | DenominatorRange       // denominator not in 1..2147483647
    | TooManyDecimals        // more than nine digits after the point
    | OutOfRange             // decimal outside the storable range

  /** The value a decimal element records: the trimmed input and the
      fraction it was converted to, as strings. */
  datatype DecimalParts = DecimalParts(decimal: string, numerator: string, denominator: string)

  /** One setError call: an element keeps the first error set on it, and
      later ones for the same element are dropped. */
  function Record(errors: map<string, Message>, name: string, m: Message): map<string, Message>
  {
    if name in errors then errors else errors[name := m]
  }

  /** The errors after setError on one element with each message in turn. */
  function RecordAll(errors: map<string, Message>, name: string, ms: seq<Message>): map<string, Message>
    decreases |ms|
  {
    if ms == [] then errors else RecordAll(Record(errors, name, ms[0]), name, ms[1..])
  }

  class FormState {
    /** getErrors(): at most one message per element, keyed by the
        element's name. */
    var errors: map<string, Message>
    var value: Option<DecimalParts>

    constructor()
      ensures errors == map[] && value == None
    {
      errors := map[];
      value := None;
    }

    /** $form_state->setError($element, $message). */
    method SetError(name: string, m: Message)
      modifies this
      ensures errors == Record(old(errors), name, m) && value == old(value)
    {
      if name !in errors {
        errors := errors[name := m];
      }
    }

    /** $form_state->setValueForElement($element, $values). */
    method SetValueForElement(v: DecimalParts)
      modifies this
      ensures value == Some(v) && errors == old(errors)
    {
      value := Some(v);
    }
  }

  /** Setting several errors on one element keeps the first of them, and
      only if the element had none; the other elements are untouched. */
  lemma {:induction false} RecordAllKeepsFirst(errors: map<string, Message>, name: string, ms: seq<Message>)
    ensures RecordAll(errors, name, ms)
            == if name in errors || ms == [] then errors else errors[name := ms[0]]
    decreases |ms|
  {
    if ms != [] {
      RecordAllKeepsFirst(Record(errors, name, ms[0]), name, ms[1..]);
    }
  }

  /** Recording two groups of calls one after the other is recording
      them together. */
  lemma {:induction false} RecordAllAppend(errors: map<string, Message>, name: string, a: seq<Message>, b: seq<Message>)
    ensures RecordAll(errors, name, a + b) == RecordAll(RecordAll(errors, name, a), name, b)
    decreases |a|
  {
    if a != [] {
      assert (a + b)[0] == a[0] && (a + b)[1..] == a[1..] + b;
      RecordAllAppend(Record(errors, name, a[0]), name, a[1..], b);
    } else {
      assert a + b == b;
    }
  }

  /** One optional setError call, as an if statement around it makes. */
  lemma RecordOptional(errors: map<string, Message>, name: string, happens: bool, m: Message)
    ensures RecordAll(errors, name, if happens then [m] else []) == if happens then Record(errors, name, m) else errors
  {
    if happens {
      assert [m][1..] == [];
    }
  }
}
