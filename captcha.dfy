/** The arithmetic captcha of private/tools/captcha.php. A puzzle is a
    small sum, difference, product or exact quotient with one of its three
    numbers blanked out; the two halves of the puzzle around the blank are
    the hint, the blanked number is the answer. Both are kept in the PHP
    session as `hint0?hint1:answer` between page loads. */
module Captcha {
  import opened Wrappers
  import opened PhpString
  import opened PhpArray

  const SESSION_PREFIX: string := "CAPTCHA_"
  const ANSWER_SEPARATOR: char := ':'
  const UNKNOWN_DELIMITER: char := '?'

  const Operators: seq<string> := ["+", "-", "*", "/"]
  const Numbers: seq<string> := ["zero", "one", "two", "three", "four",
    "five", "six", "seven", "eight", "nine", "ten", "eleven", "twelve",
    "thirteen", "fourteen", "fifteen", "sixteen", "seventeen", "eighteen",
    "nineteen", "twenty"]

  /** The `$answer` field: unset (NULL), FALSE when the session held
      something that is not an integer, or an integer. */
  datatype Answer = NoAnswer | Invalid | Int(n: int)

  /** `calcAnswer($op, $a, $b)` for the operations 0 to 3; the quotient is
      asked for only where it is exact, and PHP's `/` then gives an
      integer. */
  function CalcAnswer(op: int, a: int, b: int): (r: int)
    requires 0 <= op <= 3
    requires op == 3 ==> b != 0 && a % b == 0
    ensures op == 0 ==> r - b == a
    ensures op == 1 ==> r + b == a
    ensures op == 2 ==> (b != 0 ==> r == a * b) && (b == 0 ==> r == 0)
    ensures op == 3 ==> r * b == a
  {
    if op == 0 then a + b
    else if op == 1 then a - b
    else if op == 2 then a * b
    else a / b
  }

  /** `getNumberStr($num)`, where `coin` is what `rand(1, 2)` returned: the
      English word for a number from 0 to 20 when the coin shows 2, the
      decimal form otherwise. PHP's `&&` short-circuits, so it draws the
      coin only for a number from 0 to 20; the model always has one, and
      ignores it otherwise. The puzzles that can come out are the same,
      but the sequence of `rand` calls is not. */
  function NumberStr(num: int, coin: int): (r: string)
    ensures r != []
    ensures r == IntToString(num) <==> !(0 <= num <= 20 && coin == 2)
    ensures r != IntToString(num) ==> 0 <= num <= 20 && r == Numbers[num]
  {
    if 0 <= num <= 20 && coin == 2 then
      WordIsNotNumeral(num);
      Numbers[num]
    else IntToString(num)
  }

  /** Every number word starts with a letter, so no word is a numeral. */
  lemma WordIsNotNumeral(num: int)
    requires 0 <= num <= 20
    ensures Numbers[num] != [] && 'a' <= Numbers[num][0] <= 'z'
    ensures Numbers[num] != IntToString(num)
  {
    var w := Numbers[num];
    assert 'a' <= w[0] <= 'z';
  }

  /** The values `generate()` draws with `rand`: the operation
      `rand(0, 3)`, the second operand `rand(1, 10)`, the factor
      `rand(1, 10)` that gives the first operand, the layout `rand(0, 2)`
      and the two coins `rand(1, 2)` the calls of `getNumberStr` use, in
      order (a coin the call does not draw is ignored). */
  datatype Rolls = Rolls(op: int, b: int, k: int, layout: int, coin1: int, coin2: int)

  predicate InRange(r: Rolls) {
    0 <= r.op <= 3 && 1 <= r.b <= 10 && 1 <= r.k <= 10 && 0 <= r.layout <= 2
  }

  /** The first operand: a multiple of the second for a division, so that
      the quotient is exact. */
  function FirstOperand(r: Rolls): int {
    if r.op == 3 then r.k * r.b else r.k
  }

  /** The full equation `a op b = result` of a puzzle. */
  function Result(r: Rolls): int
    requires InRange(r)
  {
    DivisionOfMultiple(r.k, r.b);
    CalcAnswer(r.op, FirstOperand(r), r.b)
  }

  /** A generated puzzle: the two hint halves and the answer. */
  datatype Puzzle = Puzzle(hint0: string, hint1: string, answer: int)

  /** The puzzle `generate()` builds from its rolls: layout 2 blanks out
      the first operand, layout 1 the second, any other the result. */
  function MakePuzzle(r: Rolls): (p: Puzzle)
    requires InRange(r)
  {
    var a := FirstOperand(r);
    var result := Result(r);
    var op := Operators[r.op];
    if r.layout == 2 then
      Puzzle("", op + " " + NumberStr(r.b, r.coin1) + " = " + NumberStr(result, r.coin2), a)
    else if r.layout == 1 then
      Puzzle(NumberStr(a, r.coin1) + " " + op, "= " + NumberStr(result, r.coin2), r.b)
    else
      Puzzle(NumberStr(a, r.coin1) + " " + op + " " + NumberStr(r.b, r.coin2) + " =", "", result)
  }

  /** Whether `x` fills the blank of the puzzle the rolls make. */
  predicate Solves(r: Rolls, x: int)
    requires InRange(r)
  {
    var a := FirstOperand(r);
    if r.layout == 2 then (r.op == 3 ==> x % r.b == 0) && CalcAnswer(r.op, x, r.b) == Result(r)
    else if r.layout == 1 then x != 0 && (r.op == 3 ==> a % x == 0) && CalcAnswer(r.op, a, x) == Result(r)
    else x == Result(r)
  }

  /** The stored answer fills the blank, and nothing else does: every
      puzzle has exactly one solution and it is the answer. */
  lemma PuzzleAnswerIsUnique(r: Rolls, x: int)
    requires InRange(r)
    ensures Solves(r, MakePuzzle(r).answer)
    ensures Solves(r, x) ==> x == MakePuzzle(r).answer
  {
    var a := FirstOperand(r);
    if r.op == 3 {
      assert a % r.b == 0 && a / r.b == r.k by { DivisionOfMultiple(r.k, r.b); }
    }
    if Solves(r, x) {
      if r.layout == 2 {
        if r.op == 2 {
          ProductCancels(x, a, r.b);
        } else if r.op == 3 {
          QuotientCancels(x, a, r.b);
        }
      } else if r.layout == 1 {
        if r.op == 2 {
          ProductCancels(x, r.b, a);
        } else if r.op == 3 {
          DivisorCancels(a, x, r.b);
        }
      }
    }
  }

  /** A positive multiple of a positive number is at least that number. */
  lemma MulAtLeast(x: int, b: int)
    requires x >= 1 && b > 0
    ensures x * b >= b
  {
    assert x * b == (x - 1) * b + b;
  }

  lemma DivisionOfMultiple(k: int, b: int)
    requires b > 0
    ensures (k * b) % b == 0 && (k * b) / b == k
  {
    var d, m := (k * b) / b, (k * b) % b;
    assert k * b == d * b + m && 0 <= m < b;
    assert (k - d) * b == m;
    if k - d >= 1 {
      MulAtLeast(k - d, b);
    } else if d - k >= 1 {
      MulAtLeast(d - k, b);
    }
  }

  lemma ProductCancels(x: int, y: int, b: int)
    requires b > 0 && x * b == y * b
    ensures x == y
  {
    if x > y {
      MulAtLeast(x - y, b);
    } else if y > x {
      MulAtLeast(y - x, b);
    }
  }

  lemma QuotientCancels(x: int, a: int, b: int)
    requires b > 0 && x % b == 0 && a % b == 0 && x / b == a / b
    ensures x == a
  {
    assert x == (x / b) * b;
    assert a == (a / b) * b;
  }

  /** Dividing `a` exactly by two divisors giving the same quotient means
      the divisors are equal. */
  lemma DivisorCancels(a: int, x: int, b: int)
    requires a > 0 && b > 0 && x != 0 && a % x == 0 && a % b == 0 && a / x == a / b
    ensures x == b
  {
    var q := a / b;
    assert a == q * b;
    assert a == q * x;
    if q < 1 {
      MulAtLeast(1 - q, b);
    }
    ProductCancels(x, b, q);
  }

  /** Whether a string holds neither of the two separators of the session
      encoding. */
  predicate Plain(s: string) {
    ANSWER_SEPARATOR !in s && UNKNOWN_DELIMITER !in s
  }

  lemma NumberStrIsPlain(num: int, coin: int)
    ensures Plain(NumberStr(num, coin))
  {
    if 0 <= num <= 20 && coin == 2 {
      NumberWordIsPlain(num);
    } else {
      var s := IntToString(num);
      assert forall i :: 0 <= i < |s| ==> s[i] != ':' && s[i] != '?';
    }
  }

  lemma NumberWordIsPlain(num: int)
    requires 0 <= num <= 20
    ensures Plain(Numbers[num])
  {
    var w := Numbers[num];
    assert forall i :: 0 <= i < |w| ==> 'a' <= w[i] <= 'z';
  }

  /** The hint halves of a generated puzzle hold no separator, so the
      session encoding can be read back. */
  lemma PuzzleIsPlain(r: Rolls)
    requires InRange(r)
    ensures Plain(MakePuzzle(r).hint0) && Plain(MakePuzzle(r).hint1)
    ensures PHP_INT_MIN <= MakePuzzle(r).answer <= PHP_INT_MAX
  {
    NumberStrIsPlain(r.b, r.coin1);
    NumberStrIsPlain(r.b, r.coin2);
    NumberStrIsPlain(FirstOperand(r), r.coin1);
    NumberStrIsPlain(Result(r), r.coin2);
    assert forall i :: 0 <= i < 4 ==> Plain(Operators[i]);
    PlainJoin(r);
    ResultBound(r);
  }

  lemma PlainJoin(r: Rolls)
    requires InRange(r)
    requires Plain(NumberStr(r.b, r.coin1)) && Plain(NumberStr(r.b, r.coin2))
    requires Plain(NumberStr(FirstOperand(r), r.coin1)) && Plain(NumberStr(Result(r), r.coin2))
    requires Plain(Operators[r.op])
    ensures Plain(MakePuzzle(r).hint0) && Plain(MakePuzzle(r).hint1)
  {
  }

  lemma ResultBound(r: Rolls)
    requires InRange(r)
    ensures -100 <= Result(r) <= 100 && -100 <= FirstOperand(r) <= 100
  {
    if r.op == 3 {
      DivisionOfMultiple(r.k, r.b);
      SmallProduct(r.k, r.b);
    } else if r.op == 2 {
      SmallProduct(r.k, r.b);
    }
  }

  /** The product of two rolls from 1 to 10. */
  lemma SmallProduct(x: int, y: int)
    requires 1 <= x <= 10 && 1 <= y <= 10
    ensures 1 <= x * y <= 100
  {
    MulAtLeast(x, y);
    assert (10 - x) * y >= 0;
    assert 10 * y <= 100;
  }

  /** The part of the array `$this->hint` a PHP expression `$hint[i]`
      reads: an element, or NULL, which a concatenation turns into "". */
  function HintAt(hint: seq<string>, i: nat): string {
    if i < |hint| then hint[i] else ""
  }

  /** `$hint[i] = $v` on a list whose keys are 0 to |hint| - 1, for
      `i <= |hint|`. */
  function Put(hint: seq<string>, i: nat, v: string): (r: seq<string>)
    requires i <= |hint|
    ensures |r| == if i < |hint| then |hint| else |hint| + 1
    ensures r[i] == v && forall j :: 0 <= j < |hint| && j != i ==> r[j] == hint[j]
  {
    if i < |hint| then hint[i := v] else hint + [v]
  }

  /** What PHP writes for the answer in a string. */
  function AnswerString(answer: Answer): string {
    match answer
    case Int(n) => IntToString(n)
    case _ => ""
  }

  /** `serialize()`'s session value: `hint0?hint1:answer`. */
  function Encode(hint: seq<string>, answer: Answer): string {
    HintAt(hint, 0) + [UNKNOWN_DELIMITER] + HintAt(hint, 1) + [ANSWER_SEPARATOR] + AnswerString(answer)
  }

  function SessionKey(name: string): string {
    SESSION_PREFIX + name
  }

  /** `filter_var($s, FILTER_VALIDATE_INT)` as a stored answer. */
  function AnswerOf(v: Option<int>): Answer {
    match v
    case Some(n) => Int(n)
    case None => Invalid
  }

  /** `deserialize()` on the session value (or its absence): the hint and
      answer it restores, or the current ones when there is no value or it
      does not split into two parts on ":". */
  function Restore(stored: Option<string>, hint: seq<string>, answer: Answer): (r: (seq<string>, Answer))
    ensures stored.None? ==> r == (hint, answer)
    ensures stored.Some? && |Explode(stored.value, ANSWER_SEPARATOR)| != 2 ==> r == (hint, answer)
  {
    match stored
    case None => (hint, answer)
    case Some(v) =>
      var data := Explode(v, ANSWER_SEPARATOR);
      if |data| == 2 then (Explode(data[0], UNKNOWN_DELIMITER), AnswerOf(FilterValidateInt(data[1])))
      else (hint, answer)
  }

  /** Reading back what was written: hint halves without separators and an
      answer in the range of a PHP integer come back unchanged, whatever
      the state was before. */
  lemma RestoreEncode(h0: string, h1: string, n: int, hint: seq<string>, answer: Answer)
    requires Plain(h0) && Plain(h1) && PHP_INT_MIN <= n <= PHP_INT_MAX
    ensures Restore(Some(Encode([h0, h1], Int(n))), hint, answer) == ([h0, h1], Int(n))
  {
    EncodeSplits(h0, h1, n);
    HintSplits(h0, h1);
    IntToStringValidates(n);
  }

  /** The encoded value splits on ":" into the hint pair and the answer. */
  lemma EncodeSplits(h0: string, h1: string, n: int)
    requires Plain(h0) && Plain(h1)
    ensures Explode(Encode([h0, h1], Int(n)), ANSWER_SEPARATOR) == [h0 + [UNKNOWN_DELIMITER] + h1, IntToString(n)]
  {
    var pair := h0 + [UNKNOWN_DELIMITER] + h1;
    var num := IntToString(n);
    assert Encode([h0, h1], Int(n)) == Join([pair, num], ANSWER_SEPARATOR);
    assert ANSWER_SEPARATOR !in num by {
      assert forall i :: 0 <= i < |num| ==> num[i] != ':';
    }
    assert ANSWER_SEPARATOR !in pair by {
      assert forall i :: 0 <= i < |pair| ==> pair[i] != ':';
    }
    ExplodeJoin([pair, num], ANSWER_SEPARATOR);
  }

  /** The hint pair splits on "?" into its two halves. */
  lemma HintSplits(h0: string, h1: string)
    requires Plain(h0) && Plain(h1)
    ensures Explode(h0 + [UNKNOWN_DELIMITER] + h1, UNKNOWN_DELIMITER) == [h0, h1]
  {
    assert h0 + [UNKNOWN_DELIMITER] + h1 == Join([h0, h1], UNKNOWN_DELIMITER);
    ExplodeJoin([h0, h1], UNKNOWN_DELIMITER);
  }

  /** `checkAnswer($answer)`: the input, validated as an integer, is
      identical (`===`) to the stored answer; FALSE is identical to FALSE,
      and nothing is identical to an unset answer. */
  function Accepts(answer: Answer, input: string): (ok: bool)
    ensures answer.NoAnswer? ==> !ok
    ensures answer.Int? ==> (ok <==> FilterValidateInt(input) == Some(answer.n))
    ensures answer.Invalid? ==> (ok <==> FilterValidateInt(input).None?)
  {
    AnswerOf(FilterValidateInt(input)) == answer
  }

  /** The decimal form of a generated answer is accepted, and only inputs
      that validate to that number are. */
  lemma AcceptsAnswer(n: int, input: string)
    requires PHP_INT_MIN <= n <= PHP_INT_MAX
    ensures Accepts(Int(n), IntToString(n))
    ensures Accepts(Int(n), input) ==> FilterValidateInt(input) == Some(n)
  {
    IntToStringValidates(n);
  }

  /** The body of `generate()` up to the point where it stores its
      results: the operands, the result and the two hint halves around
      the blank. */
  method ComposePuzzle(rolls: Rolls) returns (h0: string, h1: string, x: int)
    requires InRange(rolls)
    ensures Puzzle(h0, h1, x) == MakePuzzle(rolls)
  {
    var op := rolls.op;
    var b := rolls.b;
    var a;
    if op == 3 {
      a := rolls.k * b;
      DivisionOfMultiple(rolls.k, b);
    } else {
      a := rolls.k;
    }
    var result := CalcAnswer(op, a, b);
    assert result == Result(rolls);
    if rolls.layout == 2 {
      h0 := "";
      h1 := Operators[op] + " " + NumberStr(b, rolls.coin1) + " = " + NumberStr(result, rolls.coin2);
      x := a;
    } else if rolls.layout == 1 {
      h0 := NumberStr(a, rolls.coin1) + " " + Operators[op];
      h1 := "= " + NumberStr(result, rolls.coin2);
      x := b;
    } else {
      h0 := NumberStr(a, rolls.coin1) + " " + Operators[op] + " " + NumberStr(b, rolls.coin2) + " =";
      h1 := "";
      x := result;
    }
  }

  /** The session variables, `$_SESSION`. */
  class Session {
    var vars: Assoc<string>

    constructor(vars: Assoc<string>)
      ensures this.vars == vars
    {
      this.vars := vars;
    }
  }

  class Captcha {
    const name: string
    var hint: seq<string>
    var answer: Answer

    /** `new Captcha($name)`: the captcha of that name as the session last
        stored it. */
    constructor(name: string, session: Session)
      ensures this.name == name
      ensures (hint, answer) == Restore(Lookup(session.vars, SessionKey(name)), [], NoAnswer)
    {
      this.name := name;
      hint := [];
      answer := NoAnswer;
      new;
      Deserialize(session);
    }

    function GetName(): string
      reads this
    {
      name
    }

    /** `serialize()`: the session entry of this captcha becomes the
        encoded hint and answer; no other session entry changes. */
    method Serialize(session: Session)
      modifies session
      ensures session.vars == PhpArray.Set(old(session.vars), SessionKey(name), Encode(hint, answer))
    {
      session.vars := PhpArray.Set(session.vars, SESSION_PREFIX + name,
        HintAt(hint, 0) + [UNKNOWN_DELIMITER] + HintAt(hint, 1) + [ANSWER_SEPARATOR] + AnswerString(answer));
    }

    /** `deserialize()`. */
    method Deserialize(session: Session)
      modifies this
      ensures (hint, answer) == Restore(Lookup(session.vars, SessionKey(name)), old(hint), old(answer))
    {
      var key := SESSION_PREFIX + name;
      var stored := Lookup(session.vars, key);
      if stored.Some? {
        var data := Explode(stored.value, ANSWER_SEPARATOR);
        if |data| == 2 {
          hint := Explode(data[0], UNKNOWN_DELIMITER);
          answer := AnswerOf(FilterValidateInt(data[1]));
        }
      }
    }

    /** `checkAnswer($answer)`. */
    function CheckAnswer(input: string): bool
      reads this
    {
      Accepts(answer, input)
    }

    /** `generate()`: a new puzzle from the rolls, written into the first
        two hint slots and the answer, then stored in the session. */
    method Generate(rolls: Rolls, session: Session)
      requires InRange(rolls)
      modifies this, session
      ensures hint == Put(Put(old(hint), 0, MakePuzzle(rolls).hint0), 1, MakePuzzle(rolls).hint1)
      ensures answer == Int(MakePuzzle(rolls).answer)
      ensures session.vars == PhpArray.Set(old(session.vars), SessionKey(name), Encode(hint, answer))
    {
      var h0, h1, x := ComposePuzzle(rolls);
      hint := Put(hint, 0, h0);
      hint := Put(hint, 1, h1);
      answer := Int(x);
      Serialize(session);
    }
  }

  /** What a later page load finds: a captcha restored from the session a
      generated puzzle was stored in has that puzzle's hint and answer, and
      accepts the answer's decimal form. */
  lemma GenerateThenRestore(r: Rolls, hint: seq<string>, before: seq<string>, answer: Answer)
    requires InRange(r)
    requires hint == Put(Put(before, 0, MakePuzzle(r).hint0), 1, MakePuzzle(r).hint1)
    ensures Restore(Some(Encode(hint, Int(MakePuzzle(r).answer))), [], NoAnswer)
            == ([MakePuzzle(r).hint0, MakePuzzle(r).hint1], Int(MakePuzzle(r).answer))
    ensures Accepts(Int(MakePuzzle(r).answer), IntToString(MakePuzzle(r).answer))
  {
    var p := MakePuzzle(r);
    PuzzleIsPlain(r);
    assert Encode(hint, Int(p.answer)) == Encode([p.hint0, p.hint1], Int(p.answer));
    RestoreEncode(p.hint0, p.hint1, p.answer, [], NoAnswer);
    AcceptsAnswer(p.answer, IntToString(p.answer));
  }
}
