/** The settings a signature depends on (src/config.rs). */
module Configs {
  import opened ByteStrings

  datatype Config = Config(domain: Bytes, selector: Bytes, listen: Bytes, requireFips: bool, key: Bytes)

  predicate IsLabel(part: Bytes) {
    && 0 < |part| <= 63 && part[0] != '-' && part[|part| - 1] != '-'
    && forall b :: b in part ==> IsAlnum(b) || b == '-'
  }

  predicate IsDnsName(name: Bytes) {
    0 < |name| <= 253 && forall part :: part in Split(name, '.') ==> IsLabel(part)
  }

  function ValidateDnsName(value: Bytes): Option<Bytes> {
    var name := LowerAll(TrimDots(value));
    if IsDnsName(name) then Some(name) else None
  }

  /** The bytes of a validated name: lower-case letters, digits, hyphens, dots. */
  predicate IsDnsByte(b: Byte) { 'a' <= b <= 'z' || IsDigit(b) || b == '-' || b == '.' }

  /** A configuration whose domain and selector came through validation. */
  predicate Loaded(c: Config) {
    && ValidateDnsName(c.domain) == Some(c.domain)
    && ValidateDnsName(c.selector) == Some(c.selector)
  }

  lemma {:induction false} SplitBytes(s: Bytes, sep: Byte, i: nat)
    requires i < |s| && s[i] != sep
    ensures exists piece :: piece in Split(s, sep) && s[i] in piece
  {
    var pieces := Split(s, sep);
    if i == 0 {
      assert s[0] in pieces[0];
    } else {
      SplitBytes(s[1..], sep, i - 1);
      var tail := Split(s[1..], sep);
      var piece :| piece in tail && s[i] in piece;
      if s[0] != sep {
        if piece == tail[0] {
          assert s[i] in pieces[0];
        } else {
          assert piece in pieces[1..];
        }
      }
    }
  }

  // ----- what is accepted -----

  /** 1 to 63 letters, digits and hyphens, with no hyphen at either end. */
  predicate LabelRule(part: Bytes) {
    && 1 <= |part| <= 63 && part[0] != '-' && part[|part| - 1] != '-'
    && forall i :: 0 <= i < |part| ==>
         'a' <= part[i] <= 'z' || 'A' <= part[i] <= 'Z' || '0' <= part[i] <= '9' || part[i] == '-'
  }

  predicate LabelRules(labels: seq<Bytes>) { forall i :: 0 <= i < |labels| ==> LabelRule(labels[i]) }

  lemma LabelExactly(part: Bytes)
    ensures LabelRule(part) <==> IsLabel(part)
    ensures IsLabel(LowerAll(part)) <==> IsLabel(part)
  {
    var lower := LowerAll(part);
    assert IsLabel(part) ==> forall i :: 0 <= i < |part| ==> part[i] in part;
    assert IsLabel(lower) ==> forall i :: 0 <= i < |part| ==> lower[i] in lower;
  }

  lemma {:induction false} JoinSplit(s: Bytes, sep: Byte)
    ensures Join(Split(s, sep), [sep]) == s
  {
    if s != [] {
      JoinSplit(s[1..], sep);
      var r := Split(s[1..], sep);
      if s[0] != sep && |r| > 1 {
        assert Split(s, sep)[1..] == r[1..];
      }
    }
  }

  lemma LowerCons(b: Byte, t: Bytes)
    ensures LowerAll([b] + t) == [Lower(b)] + LowerAll(t) && (Lower(b) == '.' <==> b == '.')
  {
  }

  lemma SplitCons(b: Byte, rest: Bytes)
    ensures var r := Split(rest, '.');
            Split([b] + rest, '.') == if b == '.' then [[]] + r else [[b] + r[0]] + r[1..]
  {
    assert ([b] + rest)[1..] == rest;
  }

  lemma {:induction false} SplitLower(s: Bytes)
    ensures |Split(LowerAll(s), '.')| == |Split(s, '.')|
    ensures forall i :: 0 <= i < |Split(s, '.')| ==> Split(LowerAll(s), '.')[i] == LowerAll(Split(s, '.')[i])
  {
    if s != [] {
      var b, rest := s[0], s[1..];
      assert s == [b] + rest;
      SplitLower(rest);
      LowerCons(b, rest);
      SplitCons(b, rest);
      SplitCons(Lower(b), LowerAll(rest));
      LowerCons(b, Split(rest, '.')[0]);
    }
  }

  lemma LabelsOf(name: Bytes)
    ensures (forall part :: part in Split(LowerAll(name), '.') ==> IsLabel(part)) <==> LabelRules(Split(name, '.'))
  {
    var lower, parts := Split(LowerAll(name), '.'), Split(name, '.');
    SplitLower(name);
    forall i | 0 <= i < |parts|
      ensures IsLabel(lower[i]) <==> LabelRule(parts[i])
    {
      LabelExactly(parts[i]);
    }
    assert forall i :: 0 <= i < |lower| ==> lower[i] in lower;
  }

  /** A name is accepted exactly when, without the dots at its end, it is at most 253
      bytes of labels joined by dots; and it is then given in lower case. */
  lemma ValidatesExactly(value: Bytes, name: Bytes)
    ensures ValidateDnsName(value) == Some(name)
       <==> && name == LowerAll(TrimDots(value)) && |name| <= 253
            && exists labels :: labels != [] && LabelRules(labels) && Join(labels, ['.']) == TrimDots(value)
  {
    var trimmed := TrimDots(value);
    LabelsOf(trimmed);
    JoinSplit(trimmed, '.');
    forall labels | labels != [] && LabelRules(labels) && Join(labels, ['.']) == trimmed
      ensures Split(trimmed, '.') == labels && trimmed != []
    {
      forall p | p in labels
        ensures '.' !in p
      {
        var i :| 0 <= i < |labels| && labels[i] == p;
        assert LabelRule(labels[i]);
      }
      SplitJoin(labels, '.');
      assert LabelRule(labels[0]);
    }
    assert trimmed == [] ==> Split(trimmed, '.') == [[]];
  }

  /** A name that passes validation holds only lower-case letters, digits, hyphens
      and dots, and is not changed by validating it again. */
  lemma ValidatedName(value: Bytes)
    requires ValidateDnsName(value).Some?
    ensures var name := ValidateDnsName(value).value;
            && 0 < |name| <= 253
            && (forall i :: 0 <= i < |name| ==> IsDnsByte(name[i]))
            && ValidateDnsName(name) == Some(name)
  {
    var trimmed := TrimDots(value);
    var name := LowerAll(trimmed);
    assert IsDnsName(name);
    forall i | 0 <= i < |name|
      ensures IsDnsByte(name[i])
    {
      assert name[i] == Lower(trimmed[i]);
      if name[i] != '.' {
        SplitBytes(name, '.', i);
      }
    }
    assert name[|name| - 1] == Lower(trimmed[|trimmed| - 1]);
    assert TrimDots(name) == name;
    assert LowerAll(name) == name;
  }
}
