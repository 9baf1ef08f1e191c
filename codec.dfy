/** The compact level text `v1!b:...|s:...|p:...`: `serializeObj`, `exportLevel` and
    `importLevel` as functions on the three object lists, and the round trip between them.
    Numbers are written and read as decimal integers, so the codec covers objects whose
    coordinates and sizes are whole numbers. */
module Codec {
  import opened Wrappers
  import opened Text
  import opened Decimal
  import opened Store

  predicate IsIntegral(r: real) {
    r.Floor as real == r
  }

  predicate Integral(o: Obj) {
    IsIntegral(o.x) && IsIntegral(o.y) && IsIntegral(o.width) && IsIntegral(o.height)
  }

  predicate AllIntegral(objs: seq<Obj>) {
    forall i :: 0 <= i < |objs| ==> Integral(objs[i])
  }

  predicate ListsIntegral(l: Lists) {
    AllIntegral(l.blocks) && AllIntegral(l.spikes) && AllIntegral(l.portals)
  }

  /** `${r}` for a whole number `r`. */
  function ShowNumber(r: real): string
    requires IsIntegral(r)
  {
    ShowInt(r.Floor)
  }

  /** `parseFloat` restricted to integer literals; `None` stands for `NaN`. */
  function ParseNumber(s: string): Option<real> {
    match ParseInt(s)
    case Some(i) => Some(i as real)
    case None => None
  }

  lemma ParseShowNumber(r: real)
    requires IsIntegral(r)
    ensures ShowNumber(r) != "" && ParseNumber(ShowNumber(r)) == Some(r)
  {
    ParseShowInt(r.Floor);
  }

  // ---------------------------------------------------------------------------------------
  // serializeObj

  /** The seven comma-separated fields `x,y,width,height,type,rotation,hitbox` before the
      trailing commas are trimmed; a field equal to its default is written empty, and the hitbox
      is `""` when true and `"0"` when false. */
  function Fields(o: Obj): (fs: seq<string>)
    requires Integral(o)
    ensures |fs| == 7
  {
    [ ShowNumber(o.x),
      ShowNumber(o.y),
      if o.width == DefaultWidth then "" else ShowNumber(o.width),
      if o.height == DefaultHeight then "" else ShowNumber(o.height),
      if o.objType == DefaultType then "" else ShowInt(o.objType),
      if o.rotation == DefaultRotation then "" else ShowInt(o.rotation),
      if o.hitbox == DefaultHitbox then "" else "0" ]
  }

  /** Printed fields hold only digits and minus signs. */
  lemma FieldsAvoid(o: Obj, c: char)
    requires Integral(o) && !IsDigit(c) && c != '-'
    ensures Avoids(Fields(o), c)
  {
    var fs := Fields(o);
    ShowIntAvoids(o.x.Floor, c);
    ShowIntAvoids(o.y.Floor, c);
    ShowIntAvoids(o.width.Floor, c);
    ShowIntAvoids(o.height.Floor, c);
    ShowIntAvoids(o.objType, c);
    ShowIntAvoids(o.rotation, c);
    assert fs[6] == "" || fs[6] == "0";
  }

  /** `serializeObj(obj)`: the fields joined by commas with the trailing commas removed. The
      text is never empty, because the `x` field always prints at least one digit. */
  function SerializeObj(o: Obj): (s: string)
    requires Integral(o)
    ensures s != ""
  {
    FieldsAvoid(o, ',');
    ParseShowNumber(o.x);
    assert Join(Fields(o), ',')[0] == Fields(o)[0][0];
    TrimEnd(Join(Fields(o), ','), ',')
  }

  /** Reading a serialized object back field by field gives the seven fields without their
      empty tail. */
  lemma SplitSerialized(o: Obj)
    requires Integral(o)
    ensures Split(SerializeObj(o), ',') == DropEmptyTail(Fields(o))
  {
    FieldsAvoid(o, ',');
    ParseShowNumber(o.x);
    SplitTrimJoin(Fields(o), ',');
  }

  /** The serialized object contains none of the level text's other delimiters. */
  lemma SerializeAvoids(o: Obj, c: char)
    requires Integral(o) && !IsDigit(c) && c != '-' && c != ','
    ensures c !in SerializeObj(o)
  {
    FieldsAvoid(o, c);
    JoinAvoids(Fields(o), ',', c);
    var j := Join(Fields(o), ',');
    var s := SerializeObj(o);
    assert s == j[..|s|];
  }

  // ---------------------------------------------------------------------------------------
  // Reading one object back

  /** A numeric field: empty or non-numeric text gives the default
      (`(isNaN(p) || p === "") ? default : parseFloat(p)`). */
  function NumberField(s: string, default: real): real {
    if s == "" then default else ParseNumber(s).GetOr(default)
  }

  function IntField(s: string, default: int): int {
    if s == "" then default else ParseInt(s).GetOr(default)
  }

  /** The hitbox field: true unless it reads as the number 0 (`!!(+p)`). */
  function HitboxField(s: string): bool {
    if s == "" then DefaultHitbox
    else match ParseInt(s)
      case Some(n) => n != 0
      case None => DefaultHitbox
  }

  /** One object of `importLevel`: the comma-separated fields, positionally, with defaults for
      missing, empty and non-numeric ones. */
  function ParseObj(text: string): Obj {
    var props := Split(text, ',');
    Obj(NumberField(Part(props, 0), 0.0),
        NumberField(Part(props, 1), 0.0),
        NumberField(Part(props, 2), DefaultWidth),
        NumberField(Part(props, 3), DefaultHeight),
        IntField(Part(props, 4), DefaultType),
        IntField(Part(props, 5), DefaultRotation),
        HitboxField(Part(props, 6)))
  }

  lemma PartDropEmptyTail(fs: seq<string>, i: nat)
    requires i < |fs|
    ensures Part(DropEmptyTail(fs), i) == fs[i]
  {
  }

  /** Reading a serialized object gives the object back. */
  lemma ParseSerialize(o: Obj)
    requires Integral(o)
    ensures ParseObj(SerializeObj(o)) == o
  {
    var fs := Fields(o);
    var props := Split(SerializeObj(o), ',');
    SplitSerialized(o);
    forall i | 0 <= i < 7 ensures Part(props, i) == fs[i] {
      PartDropEmptyTail(fs, i);
    }
    ParseShowNumber(o.x);
    ParseShowNumber(o.y);
    ParseShowNumber(o.width);
    ParseShowNumber(o.height);
    ParseShowInt(o.objType);
    ParseShowInt(o.rotation);
    assert ParseInt("0") == Some(0);
  }

  // ---------------------------------------------------------------------------------------
  // exportLevel

  function SerializeAll(objs: seq<Obj>): (r: seq<string>)
    requires AllIntegral(objs)
    ensures |r| == |objs|
  {
    seq(|objs|, i requires 0 <= i < |objs| => SerializeObj(objs[i]))
  }

  /** The objects of one section, joined by `;`. */
  function Payload(objs: seq<Obj>): string
    requires AllIntegral(objs)
  {
    Join(SerializeAll(objs), ';')
  }

  function TagOf(k: Kind): string {
    match k
    case Blocks => "b"
    case Spikes => "s"
    case Portals => "p"
  }

  /** `sectionParent`: which list a section tag names, if any. */
  function SectionKind(tag: string): (r: Option<Kind>)
    ensures r.Some? ==> TagOf(r.value) == tag
  {
    if tag == "b" then Some(Blocks)
    else if tag == "s" then Some(Spikes)
    else if tag == "p" then Some(Portals)
    else None
  }

  /** The section for list `k`, or nothing when the list is empty. */
  function Section(k: Kind, objs: seq<Obj>): seq<string>
    requires AllIntegral(objs)
  {
    if objs == [] then [] else [TagOf(k) + ":" + Payload(objs)]
  }

  function Sections(l: Lists): seq<string>
    requires ListsIntegral(l)
  {
    Section(Blocks, l.blocks) + Section(Spikes, l.spikes) + Section(Portals, l.portals)
  }

  const Version: string := "v1"

  /** The text `exportLevel` builds: `v1!`, then the non-empty sections `b:`, `s:`, `p:` in that
      order, separated by `|`. */
  function Exported(l: Lists): string
    requires ListsIntegral(l)
  {
    Version + "!" + Join(Sections(l), '|')
  }

  // ---------------------------------------------------------------------------------------
  // importLevel

  /** Every text read as an object. */
  function ParseAll(texts: seq<string>): (r: seq<Obj>)
    ensures |r| == |texts|
  {
    seq(|texts|, i requires 0 <= i < |texts| => ParseObj(texts[i]))
  }

  /** The objects of one section; empty object texts are skipped. */
  function DecodeObjects(texts: seq<string>): seq<Obj> {
    ParseAll(NonEmpty(texts))
  }

  /** One object text decodes to its object, or to nothing when it is empty. */
  lemma DecodeOne(t: string)
    ensures DecodeObjects([t]) == if t == "" then [] else [ParseObj(t)]
  {
    NonEmptySnoc([], t);
    assert [] + [t] == [t];
  }

  lemma DecodeObjectsSnoc(texts: seq<string>, t: string)
    ensures DecodeObjects(texts + [t]) == DecodeObjects(texts) + DecodeObjects([t])
  {
    NonEmptySnoc(texts, t);
    DecodeOne(t);
    var a := NonEmpty(texts);
    if t == "" {
      assert a + [] == a;
    } else {
      assert ParseAll(a + [t]) == ParseAll(a) + [ParseObj(t)];
    }
  }

  /** The objects one section of `importLevel` pushes, and the list it pushes them onto. */
  datatype Pushed = Pushed(kind: Kind, objs: seq<Obj>)

  /** Reads one section `tag:payload`: empty sections, sections without a payload and sections
      with an unknown tag push nothing. */
  function ReadSection(section: string): Option<Pushed> {
    if section == "" then None
    else
      var inner := Split(section, ':');
      var payload := Part(inner, 1);
      if payload == "" then None
      else
        match SectionKind(inner[0])
        case None => None
        case Some(k) => Some(Pushed(k, DecodeObjects(Split(payload, ';'))))
  }

  /** One section of `importLevel`: the objects it reads are pushed onto the tagged list. */
  function AddSection(l: Lists, section: string): Lists {
    match ReadSection(section)
    case None => l
    case Some(p) => l.Extend(p.kind, p.objs)
  }

  function AddSections(l: Lists, sections: seq<string>): Lists
    decreases |sections|
  {
    if sections == [] then l
    else AddSection(AddSections(l, sections[..|sections| - 1]), sections[|sections| - 1])
  }

  /** What `importLevel(str)` leaves in the lists: blocks and spikes are cleared, then the
      sections between the first and the second `!` are added (the rest of the text is ignored);
      the portals are not cleared first. */
  function Imported(l: Lists, str: string): Lists {
    var cleared := l.(blocks := [], spikes := []);
    var data := Part(Split(str, '!'), 1);
    if data == "" then cleared else AddSections(cleared, Split(data, '|'))
  }

  // ---------------------------------------------------------------------------------------
  // The round trip

  /** Decoding texts that each read back as the matching object. */
  lemma DecodeEach(texts: seq<string>, objs: seq<Obj>)
    requires |texts| == |objs|
    requires forall i :: 0 <= i < |texts| ==> texts[i] != "" && ParseObj(texts[i]) == objs[i]
    ensures DecodeObjects(texts) == objs
  {
    NonEmptyAll(texts);
  }

  lemma DecodeSerialized(objs: seq<Obj>)
    requires AllIntegral(objs)
    ensures DecodeObjects(SerializeAll(objs)) == objs
  {
    var texts := SerializeAll(objs);
    forall i | 0 <= i < |texts| ensures texts[i] != "" && ParseObj(texts[i]) == objs[i] {
      ParseSerialize(objs[i]);
    }
    DecodeEach(texts, objs);
  }

  lemma PayloadProperties(objs: seq<Obj>, c: char)
    requires AllIntegral(objs) && objs != []
    requires !IsDigit(c) && c != '-' && c != ',' && c != ';'
    ensures Payload(objs) != ""
    ensures c !in Payload(objs)
    ensures DecodeObjects(Split(Payload(objs), ';')) == objs
  {
    var texts := SerializeAll(objs);
    forall i | 0 <= i < |texts| ensures ';' !in texts[i] && c !in texts[i] {
      SerializeAvoids(objs[i], ';');
      SerializeAvoids(objs[i], c);
    }
    JoinNonEmpty(texts, ';');
    JoinAvoids(texts, ';', c);
    SplitJoin(texts, ';');
    DecodeSerialized(objs);
  }

  lemma AddSectionsSnoc(l: Lists, sections: seq<string>, s: string)
    ensures AddSections(l, sections + [s]) == AddSection(AddSections(l, sections), s)
  {
    assert (sections + [s])[..|sections|] == sections;
  }

  /** Reading a section `tag:payload` whose payload decodes to `objs` appends them to the
      tagged list. */
  lemma AddSectionText(l: Lists, k: Kind, payload: string, objs: seq<Obj>)
    requires payload != "" && ':' !in payload
    requires DecodeObjects(Split(payload, ';')) == objs
    ensures AddSection(l, TagOf(k) + ":" + payload) == l.Extend(k, objs)
  {
    var tag := TagOf(k);
    var section := tag + ":" + payload;
    assert Split(section, ':') == [tag, payload] by {
      assert section == Join([tag, payload], ':');
      assert ':' !in tag;
      SplitJoin([tag, payload], ':');
    }
    assert SectionKind(tag) == Some(k);
  }

  /** Reading the section written for a non-empty list appends that list's objects. */
  lemma AddSectionOf(l: Lists, k: Kind, objs: seq<Obj>)
    requires AllIntegral(objs) && objs != []
    ensures AddSection(l, TagOf(k) + ":" + Payload(objs)) == l.Extend(k, objs)
  {
    PayloadProperties(objs, ':');
    AddSectionText(l, k, Payload(objs), objs);
  }

  lemma AddSectionsSection(l: Lists, sections: seq<string>, k: Kind, objs: seq<Obj>)
    requires AllIntegral(objs)
    ensures AddSections(l, sections + Section(k, objs)) == AddSections(l, sections).Extend(k, objs)
  {
    if objs == [] {
      assert sections + Section(k, objs) == sections;
      assert AddSections(l, sections).Extend(k, objs) == AddSections(l, sections);
    } else {
      AddSectionsSnoc(l, sections, TagOf(k) + ":" + Payload(objs));
      AddSectionOf(AddSections(l, sections), k, objs);
    }
  }

  lemma SectionAvoids(k: Kind, objs: seq<Obj>, c: char)
    requires AllIntegral(objs) && (c == '!' || c == '|')
    ensures Avoids(Section(k, objs), c)
  {
    if objs != [] {
      var tag, payload := TagOf(k), Payload(objs);
      PayloadProperties(objs, c);
      assert c !in tag;
      var section := tag + ":" + payload;
      forall i | 0 <= i < |section| ensures section[i] != c {
        if i < |tag| {
          assert section[i] == tag[i];
        } else if i > |tag| {
          assert section[i] == payload[i - |tag| - 1];
        }
      }
      assert Section(k, objs) == [section];
    }
  }

  lemma SectionsAvoid(l: Lists, c: char)
    requires ListsIntegral(l) && (c == '!' || c == '|')
    ensures Avoids(Sections(l), c)
  {
    SectionAvoids(Blocks, l.blocks, c);
    SectionAvoids(Spikes, l.spikes, c);
    SectionAvoids(Portals, l.portals, c);
    var a, b, d := Section(Blocks, l.blocks), Section(Spikes, l.spikes), Section(Portals, l.portals);
    AvoidsConcat(a, b, c);
    AvoidsConcat(a + b, d, c);
  }

  lemma AvoidsConcat(a: seq<string>, b: seq<string>, c: char)
    requires Avoids(a, c) && Avoids(b, c)
    ensures Avoids(a + b, c)
  {
    forall i | 0 <= i < |a + b| ensures c !in (a + b)[i] {
      if i >= |a| { assert (a + b)[i] == b[i - |a|]; }
    }
  }

  /** Every section of an export is a non-empty text, and there are none exactly when the
      level is empty. */
  lemma SectionsShape(l: Lists)
    requires ListsIntegral(l)
    ensures forall i :: 0 <= i < |Sections(l)| ==> Sections(l)[i] != ""
    ensures Sections(l) == [] <==> l == Lists([], [], [])
  {
    var sb, ss, sp := Section(Blocks, l.blocks), Section(Spikes, l.spikes), Section(Portals, l.portals);
    assert |sb| <= 1 && |ss| <= 1 && |sp| <= 1;
    assert forall i :: 0 <= i < |sb| ==> sb[i] != "";
    assert forall i :: 0 <= i < |ss| ==> ss[i] != "";
    assert forall i :: 0 <= i < |sp| ==> sp[i] != "";
    var secs := sb + ss + sp;
    forall i | 0 <= i < |secs| ensures secs[i] != "" {
      if i < |sb| { assert secs[i] == sb[i]; }
      else if i < |sb| + |ss| { assert secs[i] == ss[i - |sb|]; }
      else { assert secs[i] == sp[i - |sb| - |ss|]; }
    }
  }

  /** The lists of `a` each followed by the matching list of `b`. */
  function Appended(a: Lists, b: Lists): Lists {
    Lists(a.blocks + b.blocks, a.spikes + b.spikes, a.portals + b.portals)
  }

  /** The text after the first `!` of an export is the `|`-joined sections. */
  lemma ExportedData(l: Lists)
    requires ListsIntegral(l)
    ensures Part(Split(Exported(l), '!'), 1) == Join(Sections(l), '|')
  {
    var data := Join(Sections(l), '|');
    SectionsAvoid(l, '!');
    JoinAvoids(Sections(l), '|', '!');
    assert Exported(l) == Join([Version, data], '!');
    SplitJoin([Version, data], '!');
  }

  /** Reading every section of an export appends each list's objects to its list. */
  lemma AddAllSections(cleared: Lists, l: Lists)
    requires ListsIntegral(l)
    ensures AddSections(cleared, Sections(l)) == Appended(cleared, l)
  {
    var sb, ss, sp := Section(Blocks, l.blocks), Section(Spikes, l.spikes), Section(Portals, l.portals);
    assert AddSections(cleared, []) == cleared;
    AddSectionsSection(cleared, [], Blocks, l.blocks);
    assert [] + sb == sb;
    AddSectionsSection(cleared, sb, Spikes, l.spikes);
    AddSectionsSection(cleared, sb + ss, Portals, l.portals);
    assert Sections(l) == sb + ss + sp;
  }

  /** Splitting the `|`-joined sections of a non-empty export at `|` and reading them appends
      each list's objects to its list. */
  lemma ReadSections(cleared: Lists, l: Lists)
    requires ListsIntegral(l) && Sections(l) != []
    ensures AddSections(cleared, Split(Join(Sections(l), '|'), '|')) == Appended(cleared, l)
  {
    var secs := Sections(l);
    SectionsShape(l);
    JoinNonEmpty(secs, '|');
    SectionsAvoid(l, '|');
    SplitJoin(secs, '|');
    AddAllSections(cleared, l);
  }

  /** Importing the exported text restores the blocks and the spikes exactly; the portals become
      the portals present before the import followed by the exported ones, because import never
      clears the portal list. */
  lemma ImportExport(before: Lists, l: Lists)
    requires ListsIntegral(l)
    ensures Imported(before, Exported(l)) == Lists(l.blocks, l.spikes, before.portals + l.portals)
  {
    ExportedData(l);
    SectionsShape(l);
    var cleared := before.(blocks := [], spikes := []);
    if Sections(l) == [] {
      assert before.portals + [] == before.portals;
    } else {
      ReadSections(cleared, l);
    }
  }

  /** An empty level exports as exactly `v1!`. */
  lemma ExportEmpty()
    ensures Exported(Lists([], [], [])) == "v1!"
  {
  }

  lemma AppendedAssoc(a: Lists, b: Lists, c: Lists)
    ensures Appended(Appended(a, b), c) == Appended(a, Appended(b, c))
  {
    assert (a.blocks + b.blocks) + c.blocks == a.blocks + (b.blocks + c.blocks);
    assert (a.spikes + b.spikes) + c.spikes == a.spikes + (b.spikes + c.spikes);
    assert (a.portals + b.portals) + c.portals == a.portals + (b.portals + c.portals);
  }

  lemma AppendedEmpty(a: Lists)
    ensures Appended(a, Lists([], [], [])) == a
  {
    assert a.blocks + [] == a.blocks && a.spikes + [] == a.spikes && a.portals + [] == a.portals;
  }

  /** A push adds to the lists without looking at what they hold. */
  lemma ExtendAppended(l: Lists, k: Kind, objs: seq<Obj>)
    ensures l.Extend(k, objs) == Appended(l, Lists([], [], []).Extend(k, objs))
  {
    assert l.blocks + [] == l.blocks && l.spikes + [] == l.spikes && l.portals + [] == l.portals;
  }

  /** One section adds to the lists without looking at what they hold. */
  lemma AddSectionPrefix(l: Lists, section: string)
    ensures AddSection(l, section) == Appended(l, AddSection(Lists([], [], []), section))
  {
    match ReadSection(section)
    case None => AppendedEmpty(l);
    case Some(p) => ExtendAppended(l, p.kind, p.objs);
  }

  /** Importing never looks at the lists that were there before: it only appends to them. */
  lemma {:induction false} AddSectionsPrefix(l: Lists, sections: seq<string>)
    ensures AddSections(l, sections) == Appended(l, AddSections(Lists([], [], []), sections))
    decreases |sections|
  {
    var z := Lists([], [], []);
    if sections == [] {
      AppendedEmpty(l);
    } else {
      var init, last := sections[..|sections| - 1], sections[|sections| - 1];
      AddSectionsPrefix(l, init);
      var m := AddSections(z, init);
      AddSectionPrefix(Appended(l, m), last);
      AddSectionPrefix(m, last);
      AppendedAssoc(l, m, AddSection(z, last));
    }
  }

  lemma ImportReplacesBlocksAndSpikes(l: Lists, l': Lists, str: string)
    ensures Imported(l, str).blocks == Imported(l', str).blocks
    ensures Imported(l, str).spikes == Imported(l', str).spikes
    ensures l.portals <= Imported(l, str).portals
  {
    var data := Part(Split(str, '!'), 1);
    if data != "" {
      AddSectionsPrefix(l.(blocks := [], spikes := []), Split(data, '|'));
      AddSectionsPrefix(l'.(blocks := [], spikes := []), Split(data, '|'));
    }
  }
}
