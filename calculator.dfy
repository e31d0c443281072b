/** The calculator provider: a character-set gate in front of an expression evaluator. The
    evaluator (exprtk) and the formatting of its double result are outside the model; they are
    given as a function from the query to its outcome. */
module Calculator {
  import opened Feature
  import opened Text

  /** The evaluator's outcome: a finite value (already formatted with QString::number(v, 'g', 10)),
      NaN (which also stands for a compile or evaluation error) or an infinity. */
  datatype Evaluation = Finite(formatted: string) | NotANumber | Infinite

  /** `\s` of QRegularExpression without Unicode properties: the ASCII white-space characters. */
  predicate IsRegexSpace(c: char) {
    c == ' ' || ('\t' <= c <= '\r')
  }

  /** The class `[0-9+\-*\/().\s]` of the whole-string pattern. */
  predicate IsExpressionChar(c: char) {
    ('0' <= c <= '9') || c in "+-*/()." || IsRegexSpace(c)
  }

  /** The class `[0-9+\-*\/]`, of which at least one character must occur. */
  predicate IsOperandChar(c: char) {
    ('0' <= c <= '9') || c in "+-*/"
  }

  /** Calculator::isValidExpression. */
  predicate IsValidExpression(expr: string) {
    Trim(expr) != []
    && (forall i :: 0 <= i < |expr| ==> IsExpressionChar(expr[i]))
    && (exists i :: 0 <= i < |expr| && IsOperandChar(expr[i]))
  }

  /** The scan a validator performs: every character allowed, and an operand character seen. */
  function Scan(expr: string): (r: (bool, bool))
    ensures r.0 <==> forall i :: 0 <= i < |expr| ==> IsExpressionChar(expr[i])
    ensures r.1 <==> exists i :: 0 <= i < |expr| && IsOperandChar(expr[i])
  {
    if expr == [] then (true, false)
    else
      var rest := Scan(expr[1..]);
      assert forall i :: 1 <= i < |expr| ==> expr[i] == expr[1..][i - 1];
      (IsExpressionChar(expr[0]) && rest.0, IsOperandChar(expr[0]) || rest.1)
  }

  /** Text of the expression alphabet holding a digit is valid: the digit keeps it from being
      blank and is an operand character. */
  lemma DigitIsValid(expr: string, k: nat)
    requires forall i :: 0 <= i < |expr| ==> IsExpressionChar(expr[i])
    requires k < |expr| && '0' <= expr[k] <= '9'
    ensures IsValidExpression(expr)
  {
    assert !IsSpace(expr[k]);
    assert !AllSpace(expr);
  }

  /** Text made only of brackets, points and white space is refused, because it holds no digit
      and no operator. */
  lemma NoOperandIsInvalid(expr: string)
    requires forall i :: 0 <= i < |expr| ==> expr[i] in "()." || IsRegexSpace(expr[i])
    ensures !IsValidExpression(expr)
  {
    assert forall i :: 0 <= i < |expr| ==> !IsOperandChar(expr[i]);
  }

  /** Blank input is refused. */
  lemma BlankIsInvalid(expr: string)
    requires AllSpace(expr)
    ensures !IsValidExpression(expr)
  {
  }

  /** Input the gate accepts is never blank and can only contain the expression alphabet. */
  lemma ValidIsNonBlank(expr: string)
    requires IsValidExpression(expr)
    ensures expr != [] && !AllSpace(expr)
    ensures forall c :: c in expr ==> IsExpressionChar(c)
  {
  }

  const ResultSubtitle: string := "Press Enter to copy to clipboard"
  const ResultIcon: string := "accessories-calculator"

  /** Calculator::search. */
  function Search(query: string, evaluate: string -> Evaluation): (results: seq<FeatureItem>)
    ensures |results| <= 1
    ensures results != [] ==>
      IsValidExpression(query) && evaluate(query).Finite?
      && results[0] == FeatureItem(evaluate(query).formatted, ResultSubtitle, ResultIcon,
                                   evaluate(query).formatted, "calculator")
    ensures IsValidExpression(query) && evaluate(query).Finite? ==> results != []
  {
    if query == [] || !IsValidExpression(query) then []
    else match evaluate(query)
      case Finite(text) => [FeatureItem(text, ResultSubtitle, ResultIcon, text, "calculator")]
      case _ => []
  }

  /** The gate decides before evaluation: invalid input gives nothing whatever the evaluator. */
  lemma GateBeforeEvaluation(query: string, e1: string -> Evaluation, e2: string -> Evaluation)
    requires !IsValidExpression(query)
    ensures Search(query, e1) == [] && Search(query, e2) == []
  {
  }

  /** Calculator::execute: the item's data goes to the clipboard. */
  function Execute(item: FeatureItem): Effect {
    SetClipboardText(item.data)
  }
}
