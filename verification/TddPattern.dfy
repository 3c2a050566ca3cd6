/** The TDD slot pattern: what each slot may carry, and how the pattern is read from text.
    The pattern repeats forever in both directions, so a slot is any integer. */
module TddPattern {
  import opened Wrappers
  import PythonText
  import SlotArithmetic

  datatype SlotType = DL | S | F | UL

  predicate CarriesUlControl(s: SlotType) { s != DL }
  predicate CarriesUlData(s: SlotType) { s == F || s == UL }
  predicate CarriesDlControl(s: SlotType) { s != UL }

  /** The three tables of the source. */
  lemma SlotsCarry(s: SlotType)
    ensures CarriesUlControl(s) <==> s in {S, F, UL}
    ensures CarriesUlData(s) <==> s in {F, UL}
    ensures CarriesDlControl(s) <==> s in {DL, S, F}
  {
  }

  datatype PatternError = UnknownSlot | NoSrSlot | NoUlDataSlot | NoDlControlSlot

  predicate HasUlData(p: seq<SlotType>) { exists i :: 0 <= i < |p| && CarriesUlData(p[i]) }
  predicate HasDlControl(p: seq<SlotType>) { exists i :: 0 <= i < |p| && CarriesDlControl(p[i]) }
  predicate HasUlControl(p: seq<SlotType>) { exists i :: 0 <= i < |p| && CarriesUlControl(p[i]) }

  type Pattern = p: seq<SlotType> | HasUlData(p) && HasDlControl(p) witness Flexible()

  function Flexible(): (p: seq<SlotType>)
    ensures p == [F] && HasUlData(p) && HasDlControl(p)
  {
    assert CarriesUlData([F][0]) && CarriesDlControl([F][0]);
    [F]
  }

  /** The position in the pattern of any slot: whole patterns are taken off or added until the
      slot falls inside. Written by steps so that the slot timeline is reasoned about linearly. */
  function Wrap(slot: int, n: int): (i: nat)
    requires n > 0
    ensures i < n
    decreases if slot < 0 then n - slot else slot
  {
    if slot < 0 then Wrap(slot + n, n)
    else if slot >= n then Wrap(slot - n, n)
    else slot
  }

  lemma {:induction false} WrapIsRemainder(slot: int, n: int)
    requires n > 0
    ensures Wrap(slot, n) == slot % n
    decreases if slot < 0 then n - slot else slot
  {
    if slot < 0 {
      WrapIsRemainder(slot + n, n);
      SlotArithmetic.ModShift(slot, 1, n);
    } else if slot >= n {
      WrapIsRemainder(slot - n, n);
      SlotArithmetic.ModShift(slot, -1, n);
    } else {
      SlotArithmetic.ModUnique(slot, n, 0, slot);
    }
  }

  lemma {:induction false} WrapStep(slot: int, n: int)
    requires n > 0
    ensures Wrap(slot + 1, n) == if Wrap(slot, n) + 1 == n then 0 else Wrap(slot, n) + 1
    decreases if slot < 0 then n - slot else slot
  {
    if slot < 0 {
      WrapStep(slot + n, n);
    } else if slot >= n {
      WrapStep(slot - n, n);
    }
  }

  function At(p: Pattern, slot: int): SlotType {
    p[Wrap(slot, |p|)]
  }

  /** The slot type is read at the remainder of the slot by the pattern length. */
  lemma AtIsRemainder(p: Pattern, slot: int)
    ensures At(p, slot) == p[slot % |p|]
  {
    WrapIsRemainder(slot, |p|);
  }

  lemma AtPeriodic(p: Pattern, slot: int)
    ensures At(p, slot + |p|) == At(p, slot)
  {
  }

  // ---------- reading a pattern ----------

  // str.upper on the ASCII letters.
  function Upper(s: string): (r: string)
    ensures |r| == |s|
  {
    seq(|s|, i requires 0 <= i < |s| => if 'a' <= s[i] <= 'z' then (s[i] as int - 32) as char else s[i])
  }

  function SlotOf(part: string): Option<SlotType> {
    var name := Upper(PythonText.Strip(part));
    if name == "DL" then Some(DL)
    else if name == "S" then Some(S)
    else if name == "F" then Some(F)
    else if name == "UL" then Some(UL)
    else None
  }

  /** A part names a slot when, stripped, it is the slot's name in upper, lower or mixed case. */
  lemma SlotOfMeans(part: string, s: SlotType)
    ensures SlotOf(part) == Some(s) <==>
            var text, name := PythonText.Strip(part), Name(s);
            |text| == |name| && forall i :: 0 <= i < |name| ==> text[i] == name[i] || text[i] as int == name[i] as int + 32
  {
    var text, name := PythonText.Strip(part), Name(s);
    assert |Upper(text)| == |text|;
    assert Upper(text) == name <==> |text| == |name| && forall i :: 0 <= i < |name| ==> Upper(text)[i] == name[i];
  }

  /** str.split on a separator: always at least one part. */
  function Split(text: string, sep: char): (parts: seq<string>)
    ensures |parts| >= 1
  {
    if text == [] then [[]]
    else
      var rest := Split(text[1..], sep);
      if text[0] == sep then [[]] + rest else [[text[0]] + rest[0]] + rest[1..]
  }

  function SlotsOf(parts: seq<string>): (slots: Option<seq<SlotType>>)
    ensures slots.Some? ==> |slots.value| == |parts| && forall i :: 0 <= i < |parts| ==> SlotOf(parts[i]) == Some(slots.value[i])
    ensures slots.None? ==> exists i :: 0 <= i < |parts| && SlotOf(parts[i]) == None
  {
    if parts == [] then Some([])
    else
      match (SlotOf(parts[0]), SlotsOf(parts[1..]))
      case (Some(s), Some(rest)) => Some([s] + rest)
      case (None, _) => None
      case (_, None) =>
        assert forall i :: 0 <= i < |parts| - 1 ==> parts[1..][i] == parts[i + 1];
        None
  }

  function Parse(text: string): (r: Result<seq<SlotType>, PatternError>)
    ensures r.Ok? ==> HasUlData(r.value) && HasDlControl(r.value)
  {
    match SlotsOf(Split(text, '|'))
    case None => Err(UnknownSlot)
    case Some(slots) =>
      if !HasUlControl(slots) then Err(NoSrSlot)
      else if !HasUlData(slots) then Err(NoUlDataSlot)
      else if !HasDlControl(slots) then Err(NoDlControlSlot)
      else Ok(slots)
  }

  function Name(s: SlotType): (n: string)
    ensures n != []
  {
    match s case DL => "DL" case S => "S" case F => "F" case UL => "UL"
  }

  function Render(p: seq<SlotType>): string
    requires p != []
  {
    if |p| == 1 then Name(p[0]) else Name(p[0]) + "|" + Render(p[1..])
  }

  lemma {:induction false} SplitAtBar(name: string, rest: string)
    requires '|' !in name
    ensures Split(name + "|" + rest, '|') == [name] + Split(rest, '|')
  {
    var text := name + "|" + rest;
    if name == [] {
      assert text[1..] == rest;
    } else {
      assert text[1..] == name[1..] + "|" + rest;
      SplitAtBar(name[1..], rest);
      assert [text[0]] + name[1..] == name;
    }
  }

  lemma {:induction false} SplitWhole(name: string)
    requires '|' !in name
    ensures Split(name, '|') == [name]
  {
    if name != [] {
      SplitWhole(name[1..]);
      assert [name[0]] + name[1..] == name;
    }
  }

  lemma NameReadsBack(s: SlotType)
    ensures '|' !in Name(s) && SlotOf(Name(s)) == Some(s)
  {
    var n := Name(s);
    assert Upper(n) == n;
  }

  lemma SlotsOfOne(s: SlotType)
    ensures SlotsOf([Name(s)]) == Some([s])
  {
    NameReadsBack(s);
    assert [Name(s)][1..] == [];
    assert [s] + [] == [s];
  }

  lemma SlotsOfMore(s: SlotType, parts: seq<string>, slots: seq<SlotType>)
    requires SlotsOf(parts) == Some(slots)
    ensures SlotsOf([Name(s)] + parts) == Some([s] + slots)
  {
    NameReadsBack(s);
    assert ([Name(s)] + parts)[1..] == parts;
  }

  lemma {:induction false} RenderReadsBack(p: seq<SlotType>)
    requires p != []
    ensures SlotsOf(Split(Render(p), '|')) == Some(p)
  {
    var name := Name(p[0]);
    NameReadsBack(p[0]);
    if |p| == 1 {
      SplitWhole(name);
      SlotsOfOne(p[0]);
      assert p == [p[0]];
    } else {
      var rest := p[1..];
      SplitAtBar(name, Render(rest));
      RenderReadsBack(rest);
      SlotsOfMore(p[0], Split(Render(rest), '|'), rest);
      assert p == [p[0]] + rest;
    }
  }

  /** A pattern written with bars reads back as itself exactly when it can carry UL data and a DL
      control; the check for an SR slot never decides, because every UL-data slot carries UL
      control as well. */
  lemma ParseRender(p: seq<SlotType>)
    requires p != []
    ensures HasUlData(p) && HasDlControl(p) <==> Parse(Render(p)) == Ok(p)
    ensures Parse(Render(p)).Err? ==> Parse(Render(p)).error != UnknownSlot
    ensures HasUlData(p) ==> HasUlControl(p)
  {
    RenderReadsBack(p);
  }
}
