/** The textual TCP flag filters: the node's parser and printer, and the controller's
    normaliser, which resolves a repeated flag in favour of its first occurrence. */
module TcpFlags {
  import opened Rules

  // ---- The string library as far as the flag filters use it (ASCII) ----

  predicate IsSpace(c: char) {
    c == ' ' || c == '\t' || c == '\n' || c == '\r'
  }

  function TrimLeft(s: string): (r: string) {
    if s != "" && IsSpace(s[0]) then TrimLeft(s[1..]) else s
  }

  function TrimRight(s: string): (r: string) {
    if s != "" && IsSpace(s[|s| - 1]) then TrimRight(s[..|s| - 1]) else s
  }

  function TrimSpace(s: string): string {
    TrimRight(TrimLeft(s))
  }

  function Upper(c: char): char {
    if 'a' <= c <= 'z' then c - 'a' + 'A' else c
  }

  function ToUpper(s: string): (r: string)
    ensures |r| == |s| && forall i :: 0 <= i < |s| ==> r[i] == Upper(s[i])
  {
    if s == "" then "" else [Upper(s[0])] + ToUpper(s[1..])
  }

  /** The segments of s between commas; always at least one. */
  function SplitComma(s: string): (parts: seq<string>)
    ensures |parts| > 0
  {
    if s == "" then [""]
    else
      var rest := SplitComma(s[1..]);
      if s[0] == ',' then [""] + rest else [[s[0]] + rest[0]] + rest[1..]
  }

  function JoinComma(parts: seq<string>): string {
    if parts == [] then ""
    else if |parts| == 1 then parts[0]
    else parts[0] + "," + JoinComma(parts[1..])
  }

  // ---- One segment ----

  datatype Token = Blank | Unknown | Named(flag: Flag, negate: bool)

  function Name(f: Flag): (name: string) {
    match f
    case FIN => "FIN" case SYN => "SYN" case RST => "RST" case PSH => "PSH"
    case ACK => "ACK" case URG => "URG" case ECE => "ECE" case CWR => "CWR"
  }

  function FlagNamed(name: string): Option<Flag> {
    if name == "FIN" then Some(FIN) else if name == "SYN" then Some(SYN)
    else if name == "RST" then Some(RST) else if name == "PSH" then Some(PSH)
    else if name == "ACK" then Some(ACK) else if name == "URG" then Some(URG)
    else if name == "ECE" then Some(ECE) else if name == "CWR" then Some(CWR)
    else None
  }

  function ReadToken(segment: string): Token {
    var part := TrimSpace(segment);
    if part == "" then Blank
    else
      var upper := ToUpper(part);
      var negate := upper[0] == '!';
      match FlagNamed(if negate then upper[1..] else upper)
      case None => Unknown
      case Some(f) => Named(f, negate)
  }

  /** What a filter string means: which flags are looked at, and which of those must be set. */
  datatype Filter = Bad | Filter(mask: set<Flag>, value: set<Flag>)

  const NO_FILTER := Filter({}, {})

  /** Both polarities of one flag: the node refuses this. */
  predicate Contradicts(f: Filter, flag: Flag, negate: bool)
    requires f.Filter?
  {
    flag in f.mask && (negate <==> flag in f.value)
  }

  function Take(f: Filter, flag: Flag, negate: bool): Filter
    requires f.Filter?
  {
    Filter(f.mask + {flag}, if negate then f.value else f.value + {flag})
  }

  /** The node's reading of the segments from left to right. */
  function ReadAll(parts: seq<string>, f: Filter): Filter
    requires f.Filter?
  {
    if parts == [] then f
    else
      match ReadToken(parts[0])
      case Blank => ReadAll(parts[1..], f)
      case Unknown => Bad
      case Named(flag, negate) =>
        if Contradicts(f, flag, negate) then Bad
        else ReadAll(parts[1..], Take(f, flag, negate))
  }

  /** What the node makes of a filter string. */
  function FilterOf(s: string): Filter {
    if TrimSpace(s) == "" then NO_FILTER else ReadAll(SplitComma(TrimSpace(s)), NO_FILTER)
  }

  /** parseTcpFlags, with its loop and its table of the signed names seen so far. */
  method ParseTcpFlags(s: string) returns (f: Filter)
    ensures f == FilterOf(s)
  {
    var t := TrimSpace(s);
    if t == "" {
      return NO_FILTER;
    }
    var parts := SplitComma(t);
    var seen: set<(Flag, bool)> := {};
    var mask: set<Flag>, value: set<Flag> := {}, {};
    assert parts[0..] == parts;
    for i := 0 to |parts|
      invariant forall flag :: (flag, false) in seen <==> flag in mask && flag in value
      invariant forall flag :: (flag, true) in seen <==> flag in mask && flag !in value
      invariant value <= mask
      invariant FilterOf(s) == ReadAll(parts[i..], Filter(mask, value))
    {
      assert parts[i..][1..] == parts[i + 1..];
      match ReadToken(parts[i])
      case Blank =>
      case Unknown =>
        return Bad;
      case Named(flag, negate) =>
        if (flag, !negate) in seen {
          return Bad;
        }
        if (flag, negate) in seen {
          assert mask + {flag} == mask;
          assert !negate ==> value + {flag} == value;
        } else {
          seen := seen + {(flag, negate)};
          mask := mask + {flag};
          if !negate {
            value := value + {flag};
          }
        }
    }
    f := Filter(mask, value);
  }

  // ---- Printing ----

  const CANONICAL: seq<Flag> := [CWR, ECE, URG, ACK, PSH, RST, SYN, FIN]

  function Signed(f: Flag, negate: bool): string {
    if negate then "!" + Name(f) else Name(f)
  }

  function CanonicalParts(mask: set<Flag>, value: set<Flag>, i: nat): (parts: seq<string>)
    requires i <= 8
    decreases 8 - i
  {
    if i == 8 then []
    else
      var rest := CanonicalParts(mask, value, i + 1);
      if CANONICAL[i] in mask then [Signed(CANONICAL[i], CANONICAL[i] !in value)] + rest else rest
  }

  /** tcpFlagsToString. */
  function TcpFlagsToString(mask: set<Flag>, value: set<Flag>): string {
    if mask == {} then "" else JoinComma(CanonicalParts(mask, value, 0))
  }

  // ---- The controller ----

  /** The controller's reading: a flag seen before is skipped, whatever its polarity. */
  function FirstOccurrences(parts: seq<string>, f: Filter): Filter
    requires f.Filter?
  {
    if parts == [] then f
    else
      match ReadToken(parts[0])
      case Blank => FirstOccurrences(parts[1..], f)
      case Unknown => Bad
      case Named(flag, negate) =>
        FirstOccurrences(parts[1..], if flag in f.mask then f else Take(f, flag, negate))
  }

  function FirstMeaning(s: string): Filter {
    if TrimSpace(s) == "" then NO_FILTER else FirstOccurrences(SplitComma(TrimSpace(s)), NO_FILTER)
  }

  /** validateAndNormalizeTcpFlags; None is its error. Its tests for contradictory flags come
      after the test for a repeated flag and never fire. */
  function NormalizeTcpFlags(s: string): Option<string> {
    match FirstMeaning(s)
    case Bad => None
    case Filter(mask, value) => Some(TcpFlagsToString(mask, value))
  }

  // ---- Joining and splitting are inverse on comma-free segments ----

  lemma {:induction false} SplitNoComma(p: string)
    requires ',' !in p
    ensures SplitComma(p) == [p]
  {
    if p != "" {
      SplitNoComma(p[1..]);
      assert [p[0]] + p[1..] == p;
    }
  }

  lemma {:induction false} SplitAtComma(p: string, rest: string)
    requires ',' !in p
    ensures SplitComma(p + "," + rest) == [p] + SplitComma(rest)
  {
    var s := p + "," + rest;
    if p == "" {
      assert s[1..] == rest;
    } else {
      assert s[1..] == p[1..] + "," + rest;
      SplitAtComma(p[1..], rest);
      assert [p[0]] + p[1..] == p;
    }
  }

  lemma {:induction false} SplitJoin(parts: seq<string>)
    requires parts != [] && forall p :: p in parts ==> ',' !in p
    ensures SplitComma(JoinComma(parts)) == parts
  {
    if |parts| == 1 {
      SplitNoComma(parts[0]);
    } else {
      SplitJoin(parts[1..]);
      SplitAtComma(parts[0], JoinComma(parts[1..]));
    }
  }

  // ---- Printed segments ----

  lemma NameShape(f: Flag)
    ensures |Name(f)| == 3 && forall k :: 0 <= k < 3 ==> 'A' <= Name(f)[k] <= 'Z'
    ensures FlagNamed(Name(f)) == Some(f)
  {
  }

  predicate Plain(p: string) {
    p != "" && forall k :: 0 <= k < |p| ==> p[k] == '!' || 'A' <= p[k] <= 'Z'
  }

  lemma PlainIsFixed(p: string)
    requires Plain(p)
    ensures TrimSpace(p) == p && ToUpper(p) == p && ',' !in p
  {
    assert forall k :: 0 <= k < |p| ==> Upper(p[k]) == p[k];
  }

  lemma ReadSigned(f: Flag, negate: bool)
    ensures Plain(Signed(f, negate))
    ensures ReadToken(Signed(f, negate)) == Named(f, negate)
  {
    NameShape(f);
    PlainIsFixed(Signed(f, negate));
    if negate {
      assert Signed(f, negate)[1..] == Name(f);
    }
  }

  lemma {:induction false} PartsArePlain(mask: set<Flag>, value: set<Flag>, i: nat)
    requires i <= 8
    ensures forall p :: p in CanonicalParts(mask, value, i) ==> Plain(p)
    ensures CanonicalParts(mask, value, i) == [] ==> forall j :: i <= j < 8 ==> CANONICAL[j] !in mask
    decreases 8 - i
  {
    if i < 8 {
      PartsArePlain(mask, value, i + 1);
      ReadSigned(CANONICAL[i], CANONICAL[i] !in value);
    }
  }

  lemma {:induction false} JoinedIsTrimmed(parts: seq<string>)
    requires parts != [] && forall p :: p in parts ==> Plain(p)
    ensures var s := JoinComma(parts); |s| > 0 && !IsSpace(s[0]) && !IsSpace(s[|s| - 1])
  {
    assert Plain(parts[0]);
    if |parts| > 1 {
      JoinedIsTrimmed(parts[1..]);
    }
  }

  lemma PrintedParts(mask: set<Flag>, value: set<Flag>)
    requires mask != {}
    ensures var s := TcpFlagsToString(mask, value);
            s != "" && TrimSpace(s) == s && SplitComma(s) == CanonicalParts(mask, value, 0)
  {
    var parts := CanonicalParts(mask, value, 0);
    PartsArePlain(mask, value, 0);
    if parts == [] {
      var f :| f in mask;
      CanonicalHasAll(f);
    }
    JoinedIsTrimmed(parts);
    forall p | p in parts ensures ',' !in p { PlainIsFixed(p); }
    SplitJoin(parts);
  }

  lemma CanonicalHasAll(f: Flag)
    ensures exists j :: 0 <= j < 8 && CANONICAL[j] == f
  {
    var j := match f case CWR => 0 case ECE => 1 case URG => 2 case ACK => 3
                     case PSH => 4 case RST => 5 case SYN => 6 case FIN => 7;
    assert CANONICAL[j] == f;
  }

  /** The flags before position i of the canonical order. */
  function Before(i: nat): (s: set<Flag>)
    requires i <= 8
  {
    set j | 0 <= j < i :: CANONICAL[j]
  }

  lemma BeforeStep(mask: set<Flag>, i: nat)
    requires i < 8
    ensures CANONICAL[i] !in Before(i)
    ensures mask * Before(i + 1) == if CANONICAL[i] in mask then mask * Before(i) + {CANONICAL[i]} else mask * Before(i)
  {
    assert Before(i + 1) == Before(i) + {CANONICAL[i]};
  }

  lemma {:induction false} ReadCanonical(mask: set<Flag>, value: set<Flag>, i: nat)
    requires i <= 8 && value <= mask
    ensures ReadAll(CanonicalParts(mask, value, i), Filter(mask * Before(i), value * Before(i))) == Filter(mask, value)
    ensures FirstOccurrences(CanonicalParts(mask, value, i), Filter(mask * Before(i), value * Before(i))) ==
              Filter(mask, value)
    decreases 8 - i
  {
    if i == 8 {
      forall f | f in mask ensures f in Before(8) { CanonicalHasAll(f); }
      assert mask * Before(8) == mask && value * Before(8) == value;
    } else {
      BeforeStep(mask, i);
      BeforeStep(value, i);
      ReadSigned(CANONICAL[i], CANONICAL[i] !in value);
      ReadCanonical(mask, value, i + 1);
    }
  }

  /** Parsing what was printed gives back the filter, on the node and in the controller. */
  lemma ParsePrinted(mask: set<Flag>, value: set<Flag>)
    requires value <= mask
    ensures FilterOf(TcpFlagsToString(mask, value)) == Filter(mask, value)
    ensures FirstMeaning(TcpFlagsToString(mask, value)) == Filter(mask, value)
  {
    if mask != {} {
      PrintedParts(mask, value);
      assert Before(0) == {};
      ReadCanonical(mask, value, 0);
      assert mask * Before(0) == {} && value * Before(0) == {};
    }
  }

  // ---- The two readings ----

  /** Where the node accepts, it reads what the controller reads; and neither asks for a flag
      that it does not look at. */
  lemma {:induction false} NodeReadsFirstOccurrences(parts: seq<string>, f: Filter)
    requires f.Filter? && f.value <= f.mask
    ensures ReadAll(parts, f).Filter? ==> FirstOccurrences(parts, f) == ReadAll(parts, f)
    ensures var r := FirstOccurrences(parts, f); r.Filter? ==> r.value <= r.mask
  {
    if parts != [] {
      match ReadToken(parts[0])
      case Blank => NodeReadsFirstOccurrences(parts[1..], f);
      case Unknown =>
      case Named(flag, negate) =>
        if flag in f.mask && !Contradicts(f, flag, negate) {
          assert Take(f, flag, negate) == f;
        }
        NodeReadsFirstOccurrences(parts[1..], Take(f, flag, negate));
        NodeReadsFirstOccurrences(parts[1..], f);
    }
  }

  /** The signed names that occur in the segments. */
  function Said(parts: seq<string>): set<(Flag, bool)> {
    if parts == [] then {}
    else (match ReadToken(parts[0]) case Named(flag, negate) => {(flag, negate)} case _ => {}) + Said(parts[1..])
  }

  function Recorded(f: Filter): set<(Flag, bool)>
    requires f.Filter?
  {
    (set flag | flag in f.value :: (flag, false)) + (set flag | flag in f.mask - f.value :: (flag, true))
  }

  ghost predicate BothSigns(s: set<(Flag, bool)>) {
    exists flag :: (flag, true) in s && (flag, false) in s
  }

  lemma TakeRecords(f: Filter, flag: Flag, negate: bool)
    requires f.Filter? && f.value <= f.mask && !Contradicts(f, flag, negate)
    ensures Recorded(Take(f, flag, negate)) == Recorded(f) + {(flag, negate)}
  {
  }

  /** The node refuses segments that the controller accepts exactly when some flag is given
      with both signs. */
  lemma {:induction false} NodeRefusesBothSigns(parts: seq<string>, f: Filter)
    requires f.Filter? && f.value <= f.mask
    requires FirstOccurrences(parts, f).Filter?
    ensures ReadAll(parts, f) == Bad <==> BothSigns(Said(parts) + Recorded(f))
  {
    if parts != [] {
      match ReadToken(parts[0])
      case Blank =>
        NodeRefusesBothSigns(parts[1..], f);
        assert Said(parts) == Said(parts[1..]);
      case Named(flag, negate) =>
        if Contradicts(f, flag, negate) {
          assert (flag, negate) in Said(parts) && (flag, !negate) in Recorded(f);
        } else {
          if flag in f.mask {
            assert Take(f, flag, negate) == f;
          }
          NodeRefusesBothSigns(parts[1..], Take(f, flag, negate));
          TakeRecords(f, flag, negate);
          assert Said(parts[1..]) + Recorded(Take(f, flag, negate)) == Said(parts) + Recorded(f);
        }
    }
  }

  /** The controller's output means to the node what the input meant to the controller, and
      normalising it again changes nothing. */
  lemma NormalizedIsStable(s: string)
    requires NormalizeTcpFlags(s).Some?
    ensures FilterOf(NormalizeTcpFlags(s).value) == FirstMeaning(s)
    ensures NormalizeTcpFlags(NormalizeTcpFlags(s).value) == NormalizeTcpFlags(s)
  {
    if TrimSpace(s) != "" {
      NodeReadsFirstOccurrences(SplitComma(TrimSpace(s)), NO_FILTER);
    }
    var m := FirstMeaning(s);
    ParsePrinted(m.mask, m.value);
  }

  /** The node accepts a string the controller accepts exactly when no flag occurs with both
      polarities, and then both give it the same meaning. */
  lemma NodeAcceptsUncontradicted(s: string)
    requires FirstMeaning(s).Filter?
    ensures FilterOf(s).Filter? <==> !BothSigns(Said(SplitComma(TrimSpace(s))))
    ensures FilterOf(s).Filter? ==> FilterOf(s) == FirstMeaning(s)
    ensures FirstMeaning(s).value <= FirstMeaning(s).mask
  {
    var parts := SplitComma(TrimSpace(s));
    NodeReadsFirstOccurrences(parts, NO_FILTER);
    if TrimSpace(s) != "" {
      NodeRefusesBothSigns(parts, NO_FILTER);
      assert Said(parts) + Recorded(NO_FILTER) == Said(parts);
    }
  }

  lemma BothSignsRead()
    ensures var parts := [Signed(SYN, false), Signed(SYN, true)];
            ReadAll(parts, NO_FILTER) == Bad && FirstOccurrences(parts, NO_FILTER) == Filter({SYN}, {SYN})
  {
    hide ReadToken, Signed;
    var parts := [Signed(SYN, false), Signed(SYN, true)];
    ReadSigned(SYN, false);
    ReadSigned(SYN, true);
    assert parts[1..] == [Signed(SYN, true)] && parts[1..][1..] == [];
    assert Take(NO_FILTER, SYN, false) == Filter({SYN}, {SYN});
  }

  /** For example: the controller reads this as "SYN must be set", the node refuses it. */
  lemma BothSignsExample()
    ensures FilterOf("SYN,!SYN") == Bad && FirstMeaning("SYN,!SYN") == Filter({SYN}, {SYN})
  {
    hide ReadAll, FirstOccurrences, SplitComma;
    BothSignsRead();
    SplitAtComma("SYN", "!SYN");
    SplitNoComma("!SYN");
    assert "SYN" + "," + "!SYN" == "SYN,!SYN";
    assert Signed(SYN, false) == "SYN";
    assert Signed(SYN, true) == "!SYN";
    assert ["SYN"] + ["!SYN"] == [Signed(SYN, false), Signed(SYN, true)];
    TrimmedAlready("SYN,!SYN");
  }

  lemma TrimmedAlready(s: string)
    requires s != "" && !IsSpace(s[0]) && !IsSpace(s[|s| - 1])
    ensures TrimSpace(s) == s
  {
  }
}
