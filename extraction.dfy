/**
 * The checked-answer extraction of the quiz runner (quiz/views.py): the
 * submitted form is filtered to the keys whose value is `'on'`, and each such
 * key is turned into an answer id with Python's `int`.
 */
module Extraction {
  import opened Wrappers

  /** One submitted form entry: a key and the (last) value sent for it, in iteration order. */
  datatype FormField = FormField(key: string, value: string)

  /** Raised by `int(key)` on a key that is not an integer numeral. */
  datatype ValueError = ValueError(key: string)

  /** The keys whose submitted value is `'on'`, in the form's order. */
  function OnKeys(form: seq<FormField>): (keys: seq<string>)
    ensures forall k :: k in keys <==> exists f :: f in form && f.key == k && f.value == "on"
    ensures |keys| <= |form|
  {
    if form == [] then []
    else
      var init, last := form[..|form| - 1], form[|form| - 1];
      assert form == init + [last];
      OnKeys(init) + (if last.value == "on" then [last.key] else [])
  }

  /** Filtering a concatenation filters each part and keeps their order. */
  lemma {:induction false} OnKeysAppend(f1: seq<FormField>, f2: seq<FormField>)
    ensures OnKeys(f1 + f2) == OnKeys(f1) + OnKeys(f2)
  {
    if f2 != [] {
      var init := f2[..|f2| - 1];
      assert (f1 + f2)[..|f1 + f2| - 1] == f1 + init;
      assert (f1 + f2)[|f1 + f2| - 1] == f2[|f2| - 1];
      OnKeysAppend(f1, init);
    } else {
      assert f1 + f2 == f1;
    }
  }

  // ---------------------------------------------------------------- decimal numerals

  predicate IsDigit(c: char) {
    '0' <= c <= '9'
  }

  /** A non-empty run of ASCII digits. */
  predicate IsDigits(s: string) {
    |s| > 0 && forall i :: 0 <= i < |s| ==> IsDigit(s[i])
  }

  /** The value of a run of digits, most significant first. */
  function DigitsValue(s: string): (n: nat)
    requires forall i :: 0 <= i < |s| ==> IsDigit(s[i])
  {
    if s == [] then 0
    else
      assert IsDigit(s[|s| - 1]);
      DigitsValue(s[..|s| - 1]) * 10 + (s[|s| - 1] as int - '0' as int)
  }

  /** `int(s)` on an optionally signed run of ASCII digits; anything else raises. */
  function ParseInt(s: string): (r: Option<int>)
    ensures r.Some? <==> IsDigits(s) || (|s| > 0 && (s[0] == '-' || s[0] == '+') && IsDigits(s[1..]))
  {
    if |s| > 0 && (s[0] == '-' || s[0] == '+') then
      if IsDigits(s[1..]) then
        var magnitude: int := DigitsValue(s[1..]);
        Some(if s[0] == '-' then -magnitude else magnitude)
      else None
    else if IsDigits(s) then Some(DigitsValue(s))
    else None
  }

  /** The decimal numeral of a natural number. */
  function ShowNat(n: nat): (s: string)
    ensures IsDigits(s)
  {
    if n < 10 then [('0' as int + n) as char]
    else ShowNat(n / 10) + [('0' as int + n % 10) as char]
  }

  /** The decimal numeral of an integer, as an answer id is written into a form key. */
  function ShowInt(n: int): string {
    if n < 0 then "-" + ShowNat(-n) else ShowNat(n)
  }

  lemma {:induction false} ShowNatValue(n: nat)
    ensures DigitsValue(ShowNat(n)) == n
  {
    if n >= 10 {
      var s := ShowNat(n);
      assert s[..|s| - 1] == ShowNat(n / 10);
      ShowNatValue(n / 10);
    }
  }

  /** A key written as the numeral of an id parses back to that id. */
  lemma ParseShowInt(n: int)
    ensures ParseInt(ShowInt(n)) == Some(n)
  {
    if n < 0 {
      ShowNatValue(-n);
      assert ShowInt(n)[1..] == ShowNat(-n);
    } else {
      ShowNatValue(n);
      assert ShowNat(n)[0] != '-' && ShowNat(n)[0] != '+';
    }
  }

  // ---------------------------------------------------------------- extraction

  /**
   * The answer ids of a submitted form: the `'on'` keys parsed in order, or
   * the first `'on'` key that `int` rejects.
   */
  function Extracted(form: seq<FormField>): (r: Result<seq<int>, ValueError>)
    ensures r.Success? <==> forall k :: k in OnKeys(form) ==> ParseInt(k).Some?
    ensures r.Success? ==> |r.value| == |OnKeys(form)|
    ensures r.Success? ==> forall i :: 0 <= i < |r.value| ==> ParseInt(OnKeys(form)[i]) == Some(r.value[i])
    ensures r.Failure? ==> r.error.key in OnKeys(form) && ParseInt(r.error.key).None?
  {
    if form == [] then Success([])
    else
      var init, last := form[..|form| - 1], form[|form| - 1];
      var prior := Extracted(init);
      assert OnKeys(form) == OnKeys(init) + (if last.value == "on" then [last.key] else []);
      if prior.Failure? then prior
      else if last.value != "on" then prior
      else match ParseInt(last.key)
        case None => Failure(ValueError(last.key))
        case Some(id) => Success(prior.value + [id])
  }

  /** Once a prefix of the form raises, the whole form raises the same error. */
  lemma {:induction false} ExtractedFailureSticks(form: seq<FormField>, n: nat)
    requires n <= |form| && Extracted(form[..n]).Failure?
    ensures Extracted(form) == Extracted(form[..n])
    decreases |form| - n
  {
    if n < |form| {
      assert form[..n + 1][..n] == form[..n];
      assert Extracted(form[..n + 1]) == Extracted(form[..n]);
      ExtractedFailureSticks(form, n + 1);
    } else {
      assert form[..n] == form;
    }
  }

  /** The loop of the runner's POST branch that collects the checked answer ids. */
  method ExtractAnswers(form: seq<FormField>) returns (r: Result<seq<int>, ValueError>)
    ensures r == Extracted(form)
  {
    var answers: seq<int> := [];
    for i := 0 to |form|
      invariant Extracted(form[..i]) == Success(answers)
    {
      var field := form[i];
      assert form[..i + 1][..i] == form[..i];
      if field.value == "on" {
        var id := ParseInt(field.key);
        if id.None? {
          ExtractedFailureSticks(form, i + 1);
          return Failure(ValueError(field.key));
        }
        answers := answers + [id.value];
      }
    }
    assert form[..|form|] == form;
    r := Success(answers);
  }

  /** A form with one ticked checkbox per id, named by the id's numeral, in order. */
  function Checkboxes(ids: seq<int>): (form: seq<FormField>)
    ensures |form| == |ids|
  {
    if ids == [] then []
    else Checkboxes(ids[..|ids| - 1]) + [FormField(ShowInt(ids[|ids| - 1]), "on")]
  }

  /** A form of checkboxes named by answer ids, all ticked, extracts exactly those ids. */
  lemma {:induction false} TickedCheckboxes(ids: seq<int>)
    ensures Extracted(Checkboxes(ids)) == Success(ids)
  {
    if ids != [] {
      var init, last := ids[..|ids| - 1], ids[|ids| - 1];
      var form := Checkboxes(ids);
      TickedCheckboxes(init);
      assert form[..|form| - 1] == Checkboxes(init);
      assert form[|form| - 1] == FormField(ShowInt(last), "on");
      ParseShowInt(last);
      assert init + [last] == ids;
    }
  }
}
