/** The text of the confirmation dialog shown before the traffic routing of a
    service is deleted: a fixed header line followed by exactly three items,
    naming the VirtualServices, the DestinationRules and the
    PeerAuthentications about to be removed. Only the produced strings are
    modelled, not their rendering. */
module DeleteTrafficRouting {
  import opened Common

  datatype VirtualService = VirtualService(name: string)

  /** A DestinationRule, with what its `hasPeerAuthentication()` reports. */
  datatype DestinationRule = DestinationRule(name: string, hasPeerAuthentication: bool)

  /** One line of the dialog: its element key and its text. */
  datatype Item = Item(key: string, text: string)

  /** The dialog body: the header line and the item lines, in display order. */
  datatype DeleteMessage = DeleteMessage(header: string, items: seq<Item>)

  const Header: string := "Are you sure you want to delete ?"

  /** The DestinationRules that have peer authentication, in order
      (`drs.filter(dr => !!dr.hasPeerAuthentication())`). */
  function WithPeerAuthn(drs: seq<DestinationRule>): (r: seq<DestinationRule>)
    ensures |r| <= |drs|
    ensures forall i :: 0 <= i < |r| ==> r[i].hasPeerAuthentication && r[i] in drs
    ensures forall i :: 0 <= i < |drs| && drs[i].hasPeerAuthentication ==> drs[i] in r
  {
    if |drs| == 0 then []
    else
      var rest := WithPeerAuthn(drs[1..]);
      if drs[0].hasPeerAuthentication then [drs[0]] + rest else rest
  }

  /** hasAnyPeerAuthn: the filtered list is non-empty exactly when some rule
      has peer authentication. */
  function HasAnyPeerAuthn(drs: seq<DestinationRule>): (b: bool)
    ensures b <==> exists i :: 0 <= i < |drs| && drs[i].hasPeerAuthentication
  {
    var r := WithPeerAuthn(drs);
    assert |r| > 0 ==> r[0].hasPeerAuthentication && r[0] in drs;
    |r| > 0
  }

  /** `Array.prototype.join(",")` on a list of strings, which is what
      interpolating an array into a template literal produces. */
  function Join(names: seq<string>): (s: string)
    ensures |names| > 0 ==> |s| == TotalLength(names) + |names| - 1
    ensures |names| > 0 ==> StartsWith(s, names[0])
    ensures CommaFree(names) ==> CommaCount(s) == if |names| == 0 then 0 else |names| - 1
  {
    if |names| == 0 then ""
    else if |names| == 1 then
      assert names[0][..|names[0]|] == names[0];
      assert CommaFree(names) ==> CommaCount(names[0]) == 0 by {
        if CommaFree(names) { CommaCountFree(names[0]); }
      }
      names[0]
    else
      var rest := Join(names[1..]);
      var s := names[0] + ("," + rest);
      assert s[..|names[0]|] == names[0];
      CommaCountAppend(names[0], "," + rest);
      CommaCountAppend(",", rest);
      assert ("," + rest) == [','] + rest;
      assert CommaCount(",") == 1;
      assert CommaFree(names) ==> CommaFree(names[1..]);
      assert CommaFree(names) ==> CommaCount(names[0]) == 0 by {
        if CommaFree(names) { CommaCountFree(names[0]); }
      }
      s
  }

  /** The sum of the lengths of the strings. */
  function TotalLength(names: seq<string>): nat
  {
    if |names| == 0 then 0 else |names[0]| + TotalLength(names[1..])
  }

  /** The number of commas in a string. */
  function CommaCount(s: string): nat
  {
    if |s| == 0 then 0 else (if s[0] == ',' then 1 else 0) + CommaCount(s[1..])
  }

  /** Counting commas distributes over concatenation. */
  lemma {:induction false} CommaCountAppend(a: string, b: string)
    ensures CommaCount(a + b) == CommaCount(a) + CommaCount(b)
    decreases |a|
  {
    if |a| == 0 {
      assert a + b == b;
    } else {
      assert (a + b)[0] == a[0];
      assert (a + b)[1..] == a[1..] + b;
      CommaCountAppend(a[1..], b);
    }
  }

  /** A string without a comma counts none. */
  lemma {:induction false} CommaCountFree(a: string)
    requires ',' !in a
    ensures CommaCount(a) == 0
    decreases |a|
  {
    if |a| > 0 {
      assert a[0] in a;
      assert forall c :: c in a[1..] ==> c in a;
      CommaCountFree(a[1..]);
    }
  }

  /** Splitting a string at every ',' — the inverse of Join on lists of
      names that contain no comma. */
  function Split(s: string): (parts: seq<string>)
    ensures |parts| >= 1
    ensures |s| == 0 ==> parts == [""]
  {
    if |s| == 0 then [""]
    else
      var tail := Split(s[1..]);
      if s[0] == ',' then [""] + tail else [[s[0]] + tail[0]] + tail[1..]
  }

  /** Every name is free of commas, as Kubernetes object names are. */
  predicate CommaFree(names: seq<string>)
  {
    forall i :: 0 <= i < |names| ==> ',' !in names[i]
  }

  /** Splitting a comma-free prefix glues it onto the first part of the rest. */
  lemma {:induction false} SplitCommaFreePrefix(a: string, t: string)
    requires ',' !in a
    ensures Split(a + t) == [a + Split(t)[0]] + Split(t)[1..]
    decreases |a|
  {
    if |a| == 0 {
      assert a + t == t;
      assert a + Split(t)[0] == Split(t)[0];
      assert Split(t) == [Split(t)[0]] + Split(t)[1..];
    } else {
      assert (a + t)[0] == a[0];
      assert (a + t)[1..] == a[1..] + t;
      SplitCommaFreePrefix(a[1..], t);
      assert [a[0]] + (a[1..] + Split(t)[0]) == a + Split(t)[0];
    }
  }

  /** Joining a non-empty list of comma-free names and splitting the result
      gives the names back. */
  lemma {:induction false} SplitJoin(names: seq<string>)
    requires |names| > 0 && CommaFree(names)
    ensures Split(Join(names)) == names
    decreases |names|
  {
    if |names| == 1 {
      SplitCommaFreePrefix(names[0], "");
      assert names[0] + "" == names[0];
    } else {
      var rest := Join(names[1..]);
      assert Join(names) == names[0] + ("," + rest);
      SplitCommaFreePrefix(names[0], "," + rest);
      assert ("," + rest)[1..] == rest;
      SplitJoin(names[1..]);
      assert names[0] + "" == names[0];
      assert names == [names[0]] + names[1..];
    }
  }

  /** The plural suffix: "s" when there is more than one object. */
  function Plural(count: nat): string
  {
    if count > 1 then "s" else ""
  }

  /** The template `${kind}${plural}: '${names}'` of a non-empty item line. */
  function Labelled(kind: string, names: seq<string>): (s: string)
    ensures s != ""
    ensures StartsWith(s, kind)
    ensures StartsWith(s, kind + "s") <==> |names| > 1
  {
    var rest := Plural(|names|) + (": '" + (Join(names) + "'"));
    StartsWithConcat(kind, rest);
    StartsWithConcat(kind, "s");
    assert rest[0] == (if |names| > 1 then 's' else ':');
    assert (kind + rest)[|kind|] == rest[0];
    kind + rest
  }

  /** `kind + rest` begins with `kind`, and what follows it is `rest`. */
  lemma StartsWithConcat(kind: string, rest: string)
    ensures StartsWith(kind + rest, kind)
    ensures (kind + rest)[|kind|..] == rest
  {
    assert (kind + rest)[..|kind|] == kind;
  }

  /** The names of a list of objects, in order (`objects.map(o => o.metadata.name)`). */
  function Names<T>(objects: seq<T>, nameOf: T -> string): (r: seq<string>)
    ensures |r| == |objects|
    ensures forall i :: 0 <= i < |objects| ==> r[i] == nameOf(objects[i])
  {
    seq(|objects|, i requires 0 <= i < |objects| => nameOf(objects[i]))
  }

  function VirtualServiceNames(vss: seq<VirtualService>): seq<string>
  {
    Names(vss, (vs: VirtualService) => vs.name)
  }

  function DestinationRuleNames(drs: seq<DestinationRule>): seq<string>
  {
    Names(drs, (dr: DestinationRule) => dr.name)
  }

  /** The VirtualService line: empty exactly when there is none, and plural
      exactly when there are several. */
  function VsMessage(vss: seq<VirtualService>): (s: string)
    ensures s == "" <==> |vss| == 0
    ensures |vss| > 0 ==> StartsWith(s, "VirtualService")
    ensures StartsWith(s, "VirtualServices") <==> |vss| > 1
  {
    assert "VirtualService" + "s" == "VirtualServices";
    if |vss| > 0 then Labelled("VirtualService", VirtualServiceNames(vss)) else ""
  }

  /** The DestinationRule line: empty exactly when there is none, and plural
      exactly when there are several. */
  function DrMessage(drs: seq<DestinationRule>): (s: string)
    ensures s == "" <==> |drs| == 0
    ensures |drs| > 0 ==> StartsWith(s, "DestinationRule")
    ensures StartsWith(s, "DestinationRules") <==> |drs| > 1
  {
    assert "DestinationRule" + "s" == "DestinationRules";
    if |drs| > 0 then Labelled("DestinationRule", DestinationRuleNames(drs)) else ""
  }

  /** The PeerAuthentication line: present exactly when some rule has peer
      authentication, and then naming every rule and pluralised on their
      total number. */
  function PaMessage(drs: seq<DestinationRule>): (s: string)
    ensures s != "" <==> |drs| > 0 && exists i :: 0 <= i < |drs| && drs[i].hasPeerAuthentication
    ensures s != "" ==> StartsWith(s, "PeerAuthentication")
    ensures StartsWith(s, "PeerAuthentications") <==> s != "" && |drs| > 1
  {
    assert "PeerAuthentication" + "s" == "PeerAuthentications";
    if |drs| > 0 && HasAnyPeerAuthn(drs) then Labelled("PeerAuthentication", DestinationRuleNames(drs)) else ""
  }

  /** The decimal digits of a number, as a template literal prints it. */
  function Decimal(n: nat): (s: string)
    ensures |s| >= 1
    ensures n >= 10 ==> |s| >= 2
    ensures s[|s| - 1] == "0123456789"[n % 10]
    decreases n
  {
    var digit := ["0123456789"[n % 10]];
    if n < 10 then digit else Decimal(n / 10) + digit
  }

  /** Distinct numbers print differently. */
  lemma {:induction false} DecimalInjective(a: nat, b: nat)
    requires Decimal(a) == Decimal(b)
    ensures a == b
    decreases a
  {
    var digits := "0123456789";
    assert forall i, j :: 0 <= i < j < 10 ==> digits[i] != digits[j];
    assert a % 10 == b % 10;
    if a >= 10 && b >= 10 {
      var da, db := Decimal(a), Decimal(b);
      assert da[..|da| - 1] == Decimal(a / 10);
      assert db[..|db| - 1] == Decimal(b / 10);
      DecimalInjective(a / 10, b / 10);
    }
  }

  /** The key `delete_item_${n}` of the n-th item. */
  function ItemKey(n: nat): (k: string)
    ensures StartsWith(k, "delete_item_")
    ensures n < 10 ==> |k| == 13 && k[12] == "0123456789"[n]
  {
    var k := "delete_item_" + Decimal(n);
    assert k[..12] == "delete_item_";
    k
  }

  /** Distinct counter values give distinct keys, so the three item keys
      never collide. */
  lemma ItemKeysDistinct(a: nat, b: nat)
    requires a != b
    ensures ItemKey(a) != ItemKey(b)
  {
    if ItemKey(a) == ItemKey(b) {
      assert Decimal(a) == ItemKey(a)[12..];
      assert Decimal(b) == ItemKey(b)[12..];
      DecimalInjective(a, b);
    }
  }

  /** The keys of the three items. */
  lemma FirstItemKeys()
    ensures ItemKey(1) == "delete_item_1" && ItemKey(2) == "delete_item_2" && ItemKey(3) == "delete_item_3"
  {
    assert Decimal(1) == "1" && Decimal(2) == "2" && Decimal(3) == "3";
  }

  /** Whether `s` begins with `prefix`. */
  predicate StartsWith(s: string, prefix: string)
  {
    |prefix| <= |s| && s[..|prefix|] == prefix
  }

  /** getDeleteMessage: the fixed header and the three item lines. The
      counter `i` starts at 0 and is incremented before each key is built,
      so the keys carry 1, 2 and 3. */
  function GetDeleteMessage(vss: seq<VirtualService>, drs: seq<DestinationRule>): (m: DeleteMessage)
    ensures m.header == "Are you sure you want to delete ?"
    ensures |m.items| == 3
    ensures m.items[0].key == "delete_item_1" && m.items[1].key == "delete_item_2" && m.items[2].key == "delete_item_3"
    ensures m.items[0].text == "" <==> |vss| == 0
    ensures m.items[1].text == "" <==> |drs| == 0
    ensures m.items[2].text != "" <==> |drs| > 0 && exists i :: 0 <= i < |drs| && drs[i].hasPeerAuthentication
  {
    FirstItemKeys();
    DeleteMessage(Header, [Item(ItemKey(1), VsMessage(vss)),
                           Item(ItemKey(2), DrMessage(drs)),
                           Item(ItemKey(3), PaMessage(drs))])
  }

  /** Each non-empty line starts with its kind, and carries the plural "s"
      exactly when it names more than one object; the PeerAuthentication line
      counts every DestinationRule. */
  lemma DeleteMessagePlurals(vss: seq<VirtualService>, drs: seq<DestinationRule>)
    ensures var m := GetDeleteMessage(vss, drs);
      && (|vss| > 0 ==> StartsWith(m.items[0].text, "VirtualService"))
      && (StartsWith(m.items[0].text, "VirtualServices") <==> |vss| > 1)
      && (|drs| > 0 ==> StartsWith(m.items[1].text, "DestinationRule"))
      && (StartsWith(m.items[1].text, "DestinationRules") <==> |drs| > 1)
      && (m.items[2].text != "" ==> StartsWith(m.items[2].text, "PeerAuthentication"))
      && (StartsWith(m.items[2].text, "PeerAuthentications") <==> m.items[2].text != "" && |drs| > 1)
  {
  }

  /** Reads the object names back from a non-empty item line of the given
      kind, checking that the plural suffix agrees with their number. */
  function ParseLabelled(kind: string, text: string): Option<seq<string>>
  {
    if !StartsWith(text, kind) then None
    else
      var rest := text[|kind|..];
      if StartsWith(rest, "s: '") && |rest| >= 5 && rest[|rest| - 1] == '\'' then
        var names := Split(rest[4..|rest| - 1]);
        if |names| > 1 then Some(names) else None
      else if StartsWith(rest, ": '") && |rest| >= 4 && rest[|rest| - 1] == '\'' then
        var names := Split(rest[3..|rest| - 1]);
        if |names| == 1 then Some(names) else None
      else None
  }

  /** The shape of a line: the kind, then the plural "s" when there are
      several objects, then the quoted joined names. */
  lemma LabelledShape(kind: string, names: seq<string>)
    ensures |names| == 1 ==> Labelled(kind, names) == kind + (": '" + (names[0] + "'"))
    ensures |names| > 1 ==> Labelled(kind, names) == kind + ("s: '" + (Join(names) + "'"))
  {
    var x := Join(names) + "'";
    var p := Plural(|names|);
    assert Labelled(kind, names) == kind + (p + (": '" + x));
    if |names| > 1 {
      assert p == "s";
      PluralPrefix(x);
    } else if |names| == 1 {
      assert p == "";
      assert x == names[0] + "'";
      assert p + (": '" + x) == ": '" + x;
    }
  }

  /** The plural suffix followed by the separator. */
  lemma PluralPrefix(x: string)
    ensures "s" + (": '" + x) == "s: '" + x
  {
  }

  /** The line of a single object parses back to its one name. */
  lemma ParseSingular(kind: string, name: string)
    requires ',' !in name
    ensures ParseLabelled(kind, Labelled(kind, [name])) == Some([name])
  {
    var rest := ": '" + (name + "'");
    LabelledShape(kind, [name]);
    StartsWithConcat(kind, rest);
    assert rest[0] != 's';
    assert rest[..3] == ": '";
    assert rest[3..|rest| - 1] == name;
    assert Split(name) == [name] by {
      SplitCommaFreePrefix(name, "");
      assert name + "" == name;
    }
  }

  /** The line of several objects parses back to all their names, in order. */
  lemma ParsePlural(kind: string, names: seq<string>)
    requires |names| > 1 && CommaFree(names)
    ensures ParseLabelled(kind, Labelled(kind, names)) == Some(names)
  {
    var joined := Join(names);
    SplitJoin(names);
    var rest := "s: '" + (joined + "'");
    LabelledShape(kind, names);
    StartsWithConcat(kind, rest);
    assert rest[..4] == "s: '";
    assert rest[4..|rest| - 1] == joined;
  }

  /** An item line names exactly its objects, in input order: parsing it back
      recovers the list of names. */
  lemma ParseLabelledInverse(kind: string, names: seq<string>)
    requires |names| > 0 && CommaFree(names)
    ensures ParseLabelled(kind, Labelled(kind, names)) == Some(names)
  {
    if |names| == 1 {
      assert names == [names[0]];
      ParseSingular(kind, names[0]);
    } else {
      ParsePlural(kind, names);
    }
  }

  /** Each non-empty line of the dialog lists the names of its objects in
      input order; the PeerAuthentication line lists every DestinationRule,
      including those without peer authentication. */
  lemma DeleteMessageListsNames(vss: seq<VirtualService>, drs: seq<DestinationRule>)
    requires CommaFree(VirtualServiceNames(vss)) && CommaFree(DestinationRuleNames(drs))
    ensures var m := GetDeleteMessage(vss, drs);
      && (|vss| > 0 ==> ParseLabelled("VirtualService", m.items[0].text) == Some(VirtualServiceNames(vss)))
      && (|drs| > 0 ==> ParseLabelled("DestinationRule", m.items[1].text) == Some(DestinationRuleNames(drs)))
      && (m.items[2].text != "" ==> ParseLabelled("PeerAuthentication", m.items[2].text) == Some(DestinationRuleNames(drs)))
  {
    if |vss| > 0 {
      ParseLabelledInverse("VirtualService", VirtualServiceNames(vss));
    }
    if |drs| > 0 {
      ParseLabelledInverse("DestinationRule", DestinationRuleNames(drs));
      ParseLabelledInverse("PeerAuthentication", DestinationRuleNames(drs));
    }
  }

  /** In the example below, the PeerAuthentication line is built from both
      rule names. */
  lemma ExamplePaLine()
    ensures PaMessage([DestinationRule("a", true), DestinationRule("b", false)])
            == Labelled("PeerAuthentication", ["a", "b"])
  {
    var drs := [DestinationRule("a", true), DestinationRule("b", false)];
    assert drs[0].hasPeerAuthentication;
    assert DestinationRuleNames(drs) == ["a", "b"];
  }

  /** The text of a two-name PeerAuthentication line. */
  lemma ExampleLabelledLine()
    ensures Labelled("PeerAuthentication", ["a", "b"]) == "PeerAuthentications: 'a,b'"
  {
    assert Join(["a", "b"]) == "a,b" by {
      assert ["a", "b"][1..] == ["b"];
    }
  }

  /** A concrete instance: one of two rules has peer authentication, and the
      PeerAuthentication line still names both, in the plural. */
  lemma PeerAuthenticationListsAllRules()
    ensures GetDeleteMessage([], [DestinationRule("a", true), DestinationRule("b", false)]).items[2].text
            == "PeerAuthentications: 'a,b'"
  {
    ExamplePaLine();
    ExampleLabelledLine();
  }
}
