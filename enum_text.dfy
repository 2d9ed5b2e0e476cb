/** The string helpers behind the step descriptions of the older revision
    (FQuestStepObjective::SplitEnumString and the number arguments of the
    SetDescription formats in Private/QuestManager.cpp). An enum value's
    name, as UEnum::GetValueAsString renders it, is "EnumType::Value";
    SplitEnumString keeps what follows the separator. */
module EnumText {
  import opened Common

  /** "::" starts at position i of s. */
  predicate SeparatorAt(s: string, i: int) {
    0 <= i && i + 2 <= |s| && s[i] == ':' && s[i + 1] == ':'
  }

  /** The first "::" of s at or after position k, searching forwards. */
  function FindSeparatorFrom(s: string, k: nat): (r: Option<nat>)
    requires k <= |s|
    ensures r.Some? ==> k <= r.value && SeparatorAt(s, r.value)
    ensures r.Some? ==> forall i :: k <= i < r.value ==> !SeparatorAt(s, i)
    ensures r.None? ==> forall i :: k <= i < |s| ==> !SeparatorAt(s, i)
    decreases |s| - k
  {
    if k + 2 > |s| then None
    else if SeparatorAt(s, k) then Some(k)
    else FindSeparatorFrom(s, k + 1)
  }

  /** FString::Split on "::" followed by taking the right part: the text
      after the first separator, or the empty string when there is none
      (Split then leaves its out-parameters untouched). */
  function SplitEnumString(s: string): (r: string)
    ensures (forall i :: 0 <= i < |s| ==> !SeparatorAt(s, i)) ==> r == ""
    ensures forall i :: SeparatorAt(s, i) && (forall k :: 0 <= k < i ==> !SeparatorAt(s, k)) ==> r == s[i + 2..]
  {
    match FindSeparatorFrom(s, 0)
    case None => ""
    case Some(i) => s[i + 2..]
  }

  /** An enum value rendered with its type's name in front, and split again,
      gives back the value's name, whatever that name holds. */
  lemma SplitQualified(typeName: string, name: string)
    requires forall c :: c in typeName ==> c != ':'
    ensures SplitEnumString(typeName + "::" + name) == name
  {
    var s := typeName + "::" + name;
    var i := |typeName|;
    assert SeparatorAt(s, i);
    forall k | 0 <= k < i ensures !SeparatorAt(s, k) {
      assert s[k] == typeName[k];
      assert typeName[k] in typeName;
    }
    assert s[i + 2..] == name;
  }

  /** A string without "::" splits to the empty string. */
  lemma SplitUnqualified(s: string)
    requires forall c :: c in s ==> c != ':'
    ensures SplitEnumString(s) == ""
  {
    forall i | 0 <= i < |s| ensures !SeparatorAt(s, i) {
      assert s[i] in s;
    }
  }

  /** The character of a decimal digit. */
  function DigitChar(d: nat): (c: char)
    requires d < 10
    ensures '0' <= c <= '9'
  {
    ['0', '1', '2', '3', '4', '5', '6', '7', '8', '9'][d]
  }

  /** The value of a decimal digit character. */
  function DigitValue(c: char): (d: nat)
    requires '0' <= c <= '9'
    ensures d < 10
  {
    (c as int - '0' as int) as nat
  }

  /** A digit character read back is the digit. */
  lemma DigitRoundTrip(d: nat)
    requires d < 10
    ensures DigitValue(DigitChar(d)) == d
  {
  }

  /** FText::AsNumber of a non-negative integer: its decimal digits, most
      significant first, without leading zeros. */
  function DecimalText(n: nat): (s: string)
    ensures |s| >= 1 && forall i :: 0 <= i < |s| ==> '0' <= s[i] <= '9'
    ensures |s| > 1 ==> s[0] != '0'
    decreases n
  {
    if n < 10 then [DigitChar(n)] else DecimalText(n / 10) + [DigitChar(n % 10)]
  }

  /** FText::AsNumber of an integer: a minus sign in front of a negative one. */
  function IntText(n: int): (s: string)
    ensures |s| >= 1
    ensures n >= 0 ==> s == DecimalText(n)
    ensures n < 0 ==> s == "-" + DecimalText(-n)
  {
    if n < 0 then "-" + DecimalText(-n) else DecimalText(n)
  }

  /** The value of a string of decimal digits, read most significant first. */
  function ParseDecimal(s: string): (n: nat)
    requires forall i :: 0 <= i < |s| ==> '0' <= s[i] <= '9'
    decreases |s|
  {
    if s == [] then 0 else ParseDecimal(s[..|s| - 1]) * 10 + DigitValue(s[|s| - 1])
  }

  /** Reading the decimal text of a number gives the number back. */
  lemma {:induction false} DecimalRoundTrip(n: nat)
    ensures ParseDecimal(DecimalText(n)) == n
    decreases n
  {
    var s := DecimalText(n);
    if n < 10 {
      DigitRoundTrip(n);
      assert s[..0] == [];
    } else {
      DecimalRoundTrip(n / 10);
      DigitRoundTrip(n % 10);
      assert s[..|s| - 1] == DecimalText(n / 10);
    }
  }

  /** Different numbers have different decimal texts. */
  lemma DecimalInjective(m: nat, n: nat)
    requires DecimalText(m) == DecimalText(n)
    ensures m == n
  {
    DecimalRoundTrip(m);
    DecimalRoundTrip(n);
  }
}
