/** Schema migrations: the shipped steps, the ledger of applied ones, the check that the ledger is a beginning of
    what is shipped, and the run that applies the rest in one transaction. */
module Migrations {
  import opened Shared

  datatype Step = Step(name: string, sql: string, checksum: string)

  datatype Applied = Applied(name: string, applied: bool)

  /** The failures of a run, and of which kind. */
  datatype Failure = InvalidSequence | Database | Drift | Unknown

  datatype Outcome = States(states: seq<Applied>) | Refused(failure: Failure)

  // ---------------------------------------------------------------- shipped steps

  predicate Digit(c: char) {
    '0' <= c <= '9'
  }

  /** ^[0-9]{6}_[a-z][a-z0-9_]*\.sql$ */
  predicate FileName(name: string) {
    && |name| >= 12 && name[|name| - 4..] == ".sql"
    && (forall i | 0 <= i < 6 :: Digit(name[i])) && name[6] == '_' && 'a' <= name[7] <= 'z'
    && forall i | 8 <= i < |name| - 4 :: 'a' <= name[i] <= 'z' || Digit(name[i]) || name[i] == '_'
  }

  function DigitOf(n: nat): char {
    "0123456789"[n % 10]
  }

  /** The number with six digits, as %06d prints it; a larger number has more. */
  function SixDigits(n: nat): (text: string)
    requires n < 1_000_000
    ensures |text| == 6
  {
    [DigitOf(n / 100_000), DigitOf(n / 10_000), DigitOf(n / 1_000), DigitOf(n / 100), DigitOf(n / 10), DigitOf(n)]
  }

  /** The i-th of the sorted migration files is well named, numbered i + 1, and not empty. */
  predicate WellShipped(files: seq<(string, string)>, i: nat)
    requires i < |files|
  {
    FileName(files[i].0) && i + 1 < 1_000_000 && files[i].0[..6] == SixDigits(i + 1) && files[i].1 != ""
  }

  function DigitValue(c: char): int {
    c as int - '0' as int
  }

  /** The number that six digits spell. */
  function Spelled(digits: string): int
    requires |digits| == 6
  {
    100_000 * DigitValue(digits[0]) + 10_000 * DigitValue(digits[1]) + 1_000 * DigitValue(digits[2])
    + 100 * DigitValue(digits[3]) + 10 * DigitValue(digits[4]) + DigitValue(digits[5])
  }

  lemma DigitSpells(n: nat)
    ensures Digit(DigitOf(n)) && DigitValue(DigitOf(n)) == n % 10
  {
  }

  /** Six digits are the text of a number exactly if they spell it. */
  lemma SixDigitsSpell(n: nat, text: string)
    requires n < 1_000_000 && |text| == 6
    ensures text == SixDigits(n) <==> (forall i | 0 <= i < 6 :: Digit(text[i])) && Spelled(text) == n
  {
    hide DigitOf, SixDigits, Spelled;
    var digits := SixDigits(n);
    SixDigitsSpellTheirs(n);
    if (forall i | 0 <= i < 6 :: Digit(text[i])) && Spelled(text) == n {
      SpelledOnce(text, digits);
      assert forall i | 0 <= i < 6 :: text[i] == digits[i];
    }
  }

  lemma SixDigitsSpellTheirs(n: nat)
    requires n < 1_000_000
    ensures (forall i | 0 <= i < 6 :: Digit(SixDigits(n)[i])) && Spelled(SixDigits(n)) == n
  {
    hide DigitOf, Digit;
    DigitSpells(n / 100_000);
    DigitSpells(n / 10_000);
    DigitSpells(n / 1_000);
    DigitSpells(n / 100);
    DigitSpells(n / 10);
    DigitSpells(n);
    SplitTens(n);
    hide DigitValue;
  }

  lemma SixDigitsInjective(a: nat, b: nat)
    requires a < 1_000_000 && b < 1_000_000 && SixDigits(a) == SixDigits(b)
    ensures a == b
  {
    hide SixDigits, Spelled;
    SixDigitsSpellTheirs(a);
    SixDigitsSpellTheirs(b);
  }

  /** Dividing by ten step by step. */
  lemma Shifts(n: nat)
    ensures n / 10 / 10 == n / 100 && n / 100 / 10 == n / 1_000
    ensures n / 1_000 / 10 == n / 10_000 && n / 10_000 / 10 == n / 100_000
  {
  }

  lemma SplitTens(n: nat)
    requires n < 1_000_000
    ensures 100_000 * (n / 100_000 % 10) + 10_000 * (n / 10_000 % 10) + 1_000 * (n / 1_000 % 10)
            + 100 * (n / 100 % 10) + 10 * (n / 10 % 10) + n % 10 == n
  {
    Shifts(n);
    assert n / 100_000 < 10;
  }

  lemma LastDigit(p: int, q: int, d: int, e: int)
    requires 10 * p + d == 10 * q + e && 0 <= d < 10 && 0 <= e < 10
    ensures p == q && d == e
  {
  }

  /** Different digits spell different numbers. */
  lemma SpelledOnce(a: string, b: string)
    requires |a| == |b| == 6 && Spelled(a) == Spelled(b)
    requires forall i | 0 <= i < 6 :: 0 <= DigitValue(a[i]) < 10 && 0 <= DigitValue(b[i]) < 10
    ensures forall i | 0 <= i < 6 :: DigitValue(a[i]) == DigitValue(b[i])
  {
    var (a0, a1, a2, a3, a4, a5) := Values(a);
    var (b0, b1, b2, b3, b4, b5) := Values(b);
    hide DigitValue;
    LastDigit(10_000 * a0 + 1_000 * a1 + 100 * a2 + 10 * a3 + a4, 10_000 * b0 + 1_000 * b1 + 100 * b2 + 10 * b3 + b4,
              a5, b5);
    LastDigit(1_000 * a0 + 100 * a1 + 10 * a2 + a3, 1_000 * b0 + 100 * b1 + 10 * b2 + b3, a4, b4);
    LastDigit(100 * a0 + 10 * a1 + a2, 100 * b0 + 10 * b1 + b2, a3, b3);
    LastDigit(10 * a0 + a1, 10 * b0 + b1, a2, b2);
    LastDigit(a0, b0, a1, b1);
  }

  function Values(digits: string): (int, int, int, int, int, int)
    requires |digits| == 6
  {
    (DigitValue(digits[0]), DigitValue(digits[1]), DigitValue(digits[2]), DigitValue(digits[3]), DigitValue(digits[4]),
     DigitValue(digits[5]))
  }

  predicate NameChar(c: char) {
    'a' <= c <= 'z' || Digit(c) || c == '_'
  }

  /** The parts of a migration file's name: its number's six digits, and what it is called. */
  predicate HasParts(file: string, number: string, name: string) {
    && file == number + "_" + name + ".sql" && |number| == 6 && (forall j | 0 <= j < 6 :: Digit(number[j]))
    && name != "" && 'a' <= name[0] <= 'z' && forall j | 0 <= j < |name| :: NameChar(name[j])
  }

  lemma NameHasParts(file: string)
    requires FileName(file)
    ensures |file| >= 12 && HasParts(file, file[..6], file[7..|file| - 4])
  {
    var name := file[7..|file| - 4];
    assert forall j | 0 <= j < |name| :: name[j] == file[7 + j];
    hide Digit;
    assert file == file[..6] + "_" + name + ".sql";
  }

  lemma PartsMakeName(file: string, number: string, name: string)
    requires HasParts(file, number, name)
    ensures FileName(file) && |file| >= 12 && file[..6] == number
  {
    assert file[..6] == number && file[|file| - 4..] == ".sql" && file[6] == '_';
    assert forall j | 0 <= j < |name| :: file[7 + j] == name[j];
    assert forall j | 7 <= j < |file| - 4 :: file[j] == name[j - 7];
    hide Digit;
  }

  /** A migration file is as it should be exactly if its name is six digits that spell its number, an underscore, a
      small letter, more small letters, digits and underscores, and .sql; and it is not empty. */
  lemma WellShippedExactly(files: seq<(string, string)>, i: nat)
    requires i < |files|
    ensures WellShipped(files, i) <==>
              files[i].1 != ""
              && exists number: string, name: string ::
                   HasParts(files[i].0, number, name) && |number| == 6 && Spelled(number) == i + 1
  {
    hide SixDigits, Spelled, FileName, HasParts;
    var file := files[i].0;
    if WellShipped(files, i) {
      NameHasParts(file);
      SixDigitsSpell(i + 1, file[..6]);
      assert HasParts(file, file[..6], file[7..|file| - 4]) && |file[..6]| == 6 && Spelled(file[..6]) == i + 1;
    }
    if number: string, name: string :| HasParts(file, number, name) && |number| == 6 && Spelled(number) == i + 1 {
      PartsMakeName(file, number, name);
      SpelledIsSmall(file, number, name);
      SixDigitsSpell(i + 1, number);
    }
  }

  lemma SpelledIsSmall(file: string, number: string, name: string)
    requires HasParts(file, number, name)
    ensures |number| == 6 && (forall i | 0 <= i < 6 :: Digit(number[i])) && 0 <= Spelled(number) < 1_000_000
  {
  }

  function StepsOf(files: seq<(string, string)>, sha256: string -> string): seq<Step> {
    seq(|files|, i requires 0 <= i < |files| => Step(files[i].0, files[i].1, sha256(files[i].1)))
  }

  /** Shipped steps have distinct names. */
  predicate Named(steps: seq<Step>) {
    forall i, j | 0 <= i < j < |steps| :: steps[i].name != steps[j].name
  }

  /** load: the numbered, non-empty steps, whose names are therefore distinct. */
  method Load(files: seq<(string, string)>, sha256: string -> string) returns (r: Option<seq<Step>>)
    ensures r.Some? <==> files != [] && forall i | 0 <= i < |files| :: WellShipped(files, i)
    ensures r.Some? ==> r.value == StepsOf(files, sha256) && Named(r.value)
    ensures r.Some? ==> forall i | 0 <= i < |files| ::
              && r.value[i].name == files[i].0 && r.value[i].sql == files[i].1
              && r.value[i].checksum == sha256(files[i].1)
  {
    hide SixDigits;
    var steps: seq<Step> := [];
    for i := 0 to |files|
      invariant forall k | 0 <= k < i :: WellShipped(files, k)
      invariant |steps| == i && forall k | 0 <= k < i :: steps[k] == Step(files[k].0, files[k].1, sha256(files[k].1))
    {
      if !FileName(files[i].0) || i + 1 >= 1_000_000 || files[i].0[..6] != SixDigits(i + 1) || files[i].1 == "" {
        assert !WellShipped(files, i);
        return None;
      }
      steps := steps + [Step(files[i].0, files[i].1, sha256(files[i].1))];
    }
    if steps == [] { return None; }
    forall i, j | 0 <= i < j < |steps| ensures steps[i].name != steps[j].name {
      assert WellShipped(files, i) && WellShipped(files, j);
      if SixDigits(i + 1) == SixDigits(j + 1) { SixDigitsInjective(i + 1, j + 1); }
    }
    assert steps == StepsOf(files, sha256);
    r := Some(steps);
  }

  // ---------------------------------------------------------------- the ledger

  /** The ledger after exactly these steps. */
  function LedgerOf(steps: seq<Step>): map<string, string> {
    if steps == [] then map[]
    else LedgerOf(steps[..|steps| - 1])[steps[|steps| - 1].name := steps[|steps| - 1].checksum]
  }

  /** Of the shipped steps, the ledger holds exactly the first k, with their checksums. */
  predicate Agrees(ledger: map<string, string>, steps: seq<Step>, k: nat) {
    forall i | 0 <= i < |steps| :: Holds(ledger, steps[i]) == (i < k) && (i >= k ==> steps[i].name !in ledger)
  }

  predicate Holds(ledger: map<string, string>, step: Step) {
    step.name in ledger && ledger[step.name] == step.checksum
  }

  predicate Ships(steps: seq<Step>, name: string) {
    exists i :: 0 <= i < |steps| && steps[i].name == name
  }

  lemma {:induction false} LedgerContents(steps: seq<Step>, k: nat, name: string)
    requires Named(steps) && k <= |steps|
    ensures name in LedgerOf(steps[..k]) <==> exists i :: 0 <= i < k && steps[i].name == name
    ensures forall i | 0 <= i < k :: Holds(LedgerOf(steps[..k]), steps[i])
    decreases k
  {
    if k > 0 {
      assert steps[..k][..k - 1] == steps[..k - 1];
      LedgerContents(steps, k - 1, name);
      forall i | 0 <= i < k ensures Holds(LedgerOf(steps[..k]), steps[i]) {
        assert i < k - 1 ==> Holds(LedgerOf(steps[..k - 1]), steps[i]);
      }
    }
  }

  /** The ledger is that of the first k shipped steps exactly when it agrees with them and holds nothing else. */
  lemma LedgerIsPrefix(ledger: map<string, string>, steps: seq<Step>, k: nat)
    requires Named(steps) && k <= |steps|
    ensures ledger == LedgerOf(steps[..k])
        <==> Agrees(ledger, steps, k) && forall name | name in ledger :: Ships(steps, name)
  {
    var prefix := LedgerOf(steps[..k]);
    forall name
      ensures name in prefix <==> exists i :: 0 <= i < k && steps[i].name == name
    {
      LedgerContents(steps, k, name);
    }
    LedgerContents(steps, k, "");
    if Agrees(ledger, steps, k) && forall name | name in ledger :: Ships(steps, name) {
      forall name ensures name in ledger <==> name in prefix {
        if name in ledger {
          var i :| 0 <= i < |steps| && steps[i].name == name;
          assert i < k;
        }
        if name in prefix {
          var i :| 0 <= i < k && steps[i].name == name;
          assert Holds(ledger, steps[i]);
        }
      }
      forall name | name in ledger ensures ledger[name] == prefix[name] {
        var i :| 0 <= i < k && steps[i].name == name;
        assert Holds(ledger, steps[i]) && Holds(prefix, steps[i]);
      }
    }
    if ledger == prefix {
      forall i | 0 <= i < |steps| ensures Holds(ledger, steps[i]) == (i < k) && (i >= k ==> steps[i].name !in ledger) {
        assert i >= k ==> forall j | 0 <= j < k :: steps[j].name != steps[i].name;
      }
      forall name | name in ledger ensures Ships(steps, name) {
        var i :| 0 <= i < k && steps[i].name == name;
        assert steps[i].name == name;
      }
    }
  }

  function StatesOf(steps: seq<Step>, k: nat): seq<Applied> {
    seq(|steps|, i requires 0 <= i < |steps| => Applied(steps[i].name, i < k))
  }

  /** The scan. It accepts exactly the ledgers of a beginning of the shipped steps, and says how far that goes; it
      reports drift exactly when the shipped steps in the ledger are not a beginning with the right checksums, and an
      unknown migration when they are but there are others. */
  method Check(steps: seq<Step>, ledger: map<string, string>) returns (r: Outcome, k: nat)
    requires Named(steps)
    ensures r.States? <==> exists n :: 0 <= n <= |steps| && ledger == LedgerOf(steps[..n])
    ensures r.States? ==> k <= |steps| && ledger == LedgerOf(steps[..k]) && r.states == StatesOf(steps, k)
    ensures r == Refused(Drift) <==> !exists n :: 0 <= n <= |steps| && Agrees(ledger, steps, n)
    ensures r.Refused? ==> r.failure in {Drift, Unknown}
  {
    hide LedgerOf;
    forall n | 0 <= n <= |steps|
      ensures ledger == LedgerOf(steps[..n])
          <==> Agrees(ledger, steps, n) && forall name | name in ledger :: Ships(steps, name)
    {
      LedgerIsPrefix(ledger, steps, n);
    }
    assert Agrees(ledger, steps[..0], 0);
    hide Agrees;
    var applied := ledger;
    var pending := false;
    var states: seq<Applied> := [];
    k := 0;
    for i := 0 to |steps|
      invariant k <= i && (pending <==> k < i)
      invariant Agrees(ledger, steps[..i], k)
      invariant applied == ledger - Names(steps[..i])
      invariant |states| == i && forall j | 0 <= j < i :: states[j] == Applied(steps[j].name, j < k)
    {
      NamesOneMore(steps, i);
      var name := steps[i].name;
      var ok := name in applied;
      if ok && (pending || applied[name] != steps[i].checksum) {
        NoneAgrees(ledger, steps, i, k);
        return Refused(Drift), k;
      }
      AgreesOneMore(ledger, steps, i, k);
      if !ok { pending := true; } else { k := k + 1; }
      states := states + [Applied(name, ok)];
      applied := applied - {name};
    }
    assert steps[..|steps|] == steps;
    if applied != map[] {
      var name :| name in applied;
      assert !Ships(steps, name);
      return Refused(Unknown), k;
    }
    forall name | name in ledger ensures Ships(steps, name) { assert name !in applied; }
    assert states == StatesOf(steps, k);
    r := States(states);
  }

  function Names(steps: seq<Step>): set<string> {
    set i | 0 <= i < |steps| :: steps[i].name
  }

  lemma NamesOneMore(steps: seq<Step>, i: nat)
    requires Named(steps) && i < |steps|
    ensures steps[i].name !in Names(steps[..i])
    ensures Names(steps[..i + 1]) == Names(steps[..i]) + {steps[i].name}
  {
    assert steps[..i + 1] == steps[..i] + [steps[i]];
    forall name | name in Names(steps[..i]) + {steps[i].name} ensures name in Names(steps[..i + 1]) {
      if name == steps[i].name {
        assert steps[..i + 1][i].name == name;
      } else {
        var j :| 0 <= j < i && steps[..i][j].name == name;
        assert steps[..i + 1][j].name == name;
      }
    }
  }

  /** One more step in the ledger, or the first one pending. */
  lemma AgreesOneMore(ledger: map<string, string>, steps: seq<Step>, i: nat, k: nat)
    requires i < |steps| && k <= i && Agrees(ledger, steps[..i], k)
    requires steps[i].name in ledger ==> k == i && Holds(ledger, steps[i])
    ensures Agrees(ledger, steps[..i + 1], if steps[i].name in ledger then k + 1 else k)
  {
    forall j | 0 <= j < i ensures Holds(ledger, steps[j]) == (j < k) && (j >= k ==> steps[j].name !in ledger) {
      assert steps[..i][j] == steps[j];
    }
  }

  /** A step in the ledger after a missing one, or with another checksum, fits no beginning. */
  lemma NoneAgrees(ledger: map<string, string>, steps: seq<Step>, i: nat, k: nat)
    requires i < |steps| && k <= i && Agrees(ledger, steps[..i], k)
    requires steps[i].name in ledger && (k < i || !Holds(ledger, steps[i]))
    ensures forall n | 0 <= n <= |steps| :: !Agrees(ledger, steps, n)
  {
    forall n | 0 <= n <= |steps| ensures !Agrees(ledger, steps, n) {
      if k < i { assert steps[..i][k] == steps[k] && !Holds(ledger, steps[k]); }
    }
  }
}
