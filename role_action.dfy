/**
 * The role-creation request builder: five optional role attributes that
 * start unset, plain setters that store what they are given, a permission
 * setter that validates the mask against the catalogue and the flags the
 * bot's own member holds before storing it, and the serialiser that turns
 * the attributes that are set into the request's JSON object.
 */
module RoleAction {
  import opened Wrappers
  import opened Bits
  import opened Permissions

  /** Values of a Java `long`. */
  type Int64 = x: int | -0x8000_0000_0000_0000 <= x < 0x8000_0000_0000_0000

  /** Values of a Java `int`. */
  type Int32 = x: int | -0x8000_0000 <= x < 0x8000_0000

  /** The target guild, reduced to what validation asks of it: the flags its self member holds. */
  datatype Guild = Guild(selfPermissions: set<Permission>)

  /** What `setPermissions` throws. */
  datatype Error =
    | IllegalArgument(message: string)
    | InsufficientPermission(permission: Permission)

  const NegativeMessage := "Raw Permissions may not be negative"
  const AboveAllMessage := "Provided permissions may not be greater than a full permission set!"

  /** A JSON value of the request body. */
  datatype Json = JString(str: string) | JNumber(num: int) | JBool(flag: bool)

  /** The builder's five optional attributes; `None` is Java's `null`, "unset". */
  datatype RoleFields = RoleFields(
    name: Option<string>,
    color: Option<Int32>,
    permissions: Option<Int64>,
    hoisted: Option<bool>,
    mentionable: Option<bool>)

  const Unset := RoleFields(None, None, None, None, None)

  /** The index of the first flag the member does not hold, or |flags| when it holds them all. */
  function FirstMissing(flags: seq<Permission>, held: set<Permission>): (i: nat)
    ensures i <= |flags|
    ensures forall j :: 0 <= j < i ==> flags[j] in held
    ensures i < |flags| ==> flags[i] !in held
  {
    if flags == [] then 0
    else if flags[0] !in held then 0
    else 1 + FirstMissing(flags[1..], held)
  }

  /**
   * What `setPermissions` decides about its argument: null passes
   * unchecked; a negative mask, then a mask numerically above
   * ALL_PERMISSIONS, is an illegal argument; otherwise the decoded flags are
   * checked in catalogue order and the first one the member lacks is named.
   */
  function Validate(catalogue: seq<Permission>, held: set<Permission>, permissions: Option<Int64>): (out: Outcome<Error>)
    ensures out.Pass? <==>
      permissions.None? ||
      (0 <= permissions.value <= AllPermissions(catalogue) &&
       forall p :: p in catalogue && TestBit(permissions.value, p.offset) ==> p in held)
    ensures permissions.Some? && permissions.value < 0 ==> out == Fail(IllegalArgument(NegativeMessage))
    ensures permissions.Some? && permissions.value > AllPermissions(catalogue) ==>
      out == Fail(IllegalArgument(AboveAllMessage))
    ensures permissions.Some? && 0 <= permissions.value <= AllPermissions(catalogue) && out.Fail? ==>
      out.error.InsufficientPermission?
    ensures out.Fail? && out.error.InsufficientPermission? ==>
      var m, p := permissions.value, out.error.permission;
      0 <= m <= AllPermissions(catalogue) &&
      p in catalogue && TestBit(m, p.offset) && p !in held
    ensures out.Fail? && out.error.InsufficientPermission? ==>
      exists c :: 0 <= c < |catalogue| && catalogue[c] == out.error.permission &&
        forall j :: 0 <= j < c && TestBit(permissions.value, catalogue[j].offset) ==> catalogue[j] in held
  {
    match permissions
    case None => Pass
    case Some(m) =>
      if m < 0 then Fail(IllegalArgument(NegativeMessage))
      else if !(m <= AllPermissions(catalogue)) then Fail(IllegalArgument(AboveAllMessage))
      else
        var flags := Decode(catalogue, m);
        var i := FirstMissing(flags, held);
        if i < |flags| then
          FirstMissingInOrder(catalogue, m, held);
          Fail(InsufficientPermission(flags[i]))
        else Pass
  }

  /**
   * The flag the check loop stops at is, among the decoded flags, the first
   * one in catalogue order that the member lacks: every catalogue flag
   * before it whose bit is set in the mask is held.
   */
  lemma {:induction false} FirstMissingInOrder(catalogue: seq<Permission>, mask: int, held: set<Permission>)
    requires FirstMissing(Decode(catalogue, mask), held) < |Decode(catalogue, mask)|
    ensures var flags := Decode(catalogue, mask);
      exists c :: 0 <= c < |catalogue| && catalogue[c] == flags[FirstMissing(flags, held)] &&
        forall j :: 0 <= j < c && TestBit(mask, catalogue[j].offset) ==> catalogue[j] in held
  {
    var flags, rest := Decode(catalogue, mask), Decode(catalogue[1..], mask);
    var p := catalogue[0];
    if TestBit(mask, p.offset) && p !in held {
      assert flags[0] == p && FirstMissing(flags, held) == 0;
      assert 0 <= 0 < |catalogue| && catalogue[0] == flags[FirstMissing(flags, held)];
    } else {
      if TestBit(mask, p.offset) {
        assert flags == [p] + rest && flags[1..] == rest;
        assert FirstMissing(flags, held) == 1 + FirstMissing(rest, held);
      } else {
        assert flags == rest;
      }
      FirstMissingInOrder(catalogue[1..], mask, held);
      var c :| 0 <= c < |catalogue[1..]| && catalogue[1..][c] == rest[FirstMissing(rest, held)] &&
        forall j :: 0 <= j < c && TestBit(mask, catalogue[1..][j].offset) ==> catalogue[1..][j] in held;
      assert catalogue[c + 1] == flags[FirstMissing(flags, held)];
      forall j | 0 <= j < c + 1 && TestBit(mask, catalogue[j].offset) ensures catalogue[j] in held {
        if j > 0 {
          assert catalogue[j] == catalogue[1..][j - 1];
        }
      }
    }
  }

  /** Java's `color & 0xFFFFFF`: the low 24 bits of the two's-complement colour. */
  function ColorBits(color: Int32): (rgb: int)
    ensures 0 <= rgb <= 0xFF_FFFF
    ensures rgb == color % 0x100_0000
  {
    Pow2At24();
    BitAndLowMask(color, 24);
    BitAnd(color, 0xFF_FFFF)
  }

  /**
   * The request body `finalizeData` assembles: one key per attribute that
   * is set, none for an unset one, the colour cut to 24 bits.
   */
  function Payload(f: RoleFields): (obj: map<string, Json>)
    ensures "name" in obj <==> f.name.Some?
    ensures "color" in obj <==> f.color.Some?
    ensures "permissions" in obj <==> f.permissions.Some?
    ensures "hoist" in obj <==> f.hoisted.Some?
    ensures "mentionable" in obj <==> f.mentionable.Some?
    ensures obj.Keys <= {"name", "color", "permissions", "hoist", "mentionable"}
    ensures f.name.Some? ==> obj["name"] == JString(f.name.value)
    ensures f.color.Some? ==>
      obj["color"].JNumber? && 0 <= obj["color"].num <= 0xFF_FFFF &&
      obj["color"].num == f.color.value % 0x100_0000
    ensures f.permissions.Some? ==> obj["permissions"] == JNumber(f.permissions.value)
    ensures f.hoisted.Some? ==> obj["hoist"] == JBool(f.hoisted.value)
    ensures f.mentionable.Some? ==> obj["mentionable"] == JBool(f.mentionable.value)
  {
    var withName := if f.name.Some? then map["name" := JString(f.name.value)] else map[];
    var withColor := if f.color.Some? then withName["color" := JNumber(ColorBits(f.color.value))] else withName;
    var withPermissions :=
      if f.permissions.Some? then withColor["permissions" := JNumber(f.permissions.value)] else withColor;
    var withHoist := if f.hoisted.Some? then withPermissions["hoist" := JBool(f.hoisted.value)] else withPermissions;
    if f.mentionable.Some? then withHoist["mentionable" := JBool(f.mentionable.value)] else withHoist
  }

  /**
   * The bound is numeric, not a bit-subset test: in a catalogue with flags
   * at bits 0 and 2, ALL_PERMISSIONS is 5 and the mask 2 passes although bit
   * 1 belongs to no flag, and it is accepted from a member holding nothing.
   */
  lemma UndefinedBitUnchecked()
    ensures var catalogue := [Permission(0), Permission(2)];
      AllPermissions(catalogue) == 5 &&
      TestBit(2, 1) && !Defined(catalogue, 1) &&
      Decode(catalogue, 2) == [] &&
      Validate(catalogue, {}, Some(2)) == Pass
  {
    var catalogue := [Permission(0), Permission(2)];
    assert Raw(Permission(2)) == 4;
    assert AllPermissions(catalogue[1..]) == 4 by {
      assert catalogue[1..] == [Permission(2)];
      assert AllPermissions([Permission(2)]) == BitOr(4, 0);
    }
    assert BitOr(1, 4) == 5;
  }

  /**
   * A mask made only of flags the member holds is accepted: it is not
   * negative, its bits are all defined, so it is within ALL_PERMISSIONS, and
   * every flag it decodes to is held.
   */
  lemma HeldMaskAccepted(catalogue: seq<Permission>, held: set<Permission>, mask: Int64)
    requires mask >= 0
    requires forall k: nat :: TestBit(mask, k) ==> exists p :: p in catalogue && p in held && p.offset == k
    ensures Validate(catalogue, held, Some(mask)) == Pass
  {
    forall k: nat | TestBit(mask, k) ensures Defined(catalogue, k) {
      var p :| p in catalogue && p in held && p.offset == k;
    }
    DefinedMaskWithinBound(catalogue, mask);
    forall p | p in catalogue && TestBit(mask, p.offset) ensures p in held {
      var q :| q in catalogue && q in held && q.offset == p.offset;
      // two flags at one offset are the same flag
    }
  }

  /**
   * ALL_PERMISSIONS is itself a long that `setPermissions` accepts exactly
   * when the member holds every flag of the catalogue.
   */
  lemma FullMaskNeedsEveryFlag(catalogue: seq<Permission>, held: set<Permission>)
    requires ValidCatalogue(catalogue)
    ensures AllPermissions(catalogue) < 0x8000_0000_0000_0000
    ensures Validate(catalogue, held, Some(AllPermissions(catalogue))).Pass? <==>
      forall p :: p in catalogue ==> p in held
  {
    AllPermissionsFitsLong(catalogue);
    Pow2At63();
    DecodeAll(catalogue);
  }

  /** RoleActionImpl: a builder bound to one guild, mutated in place by its setters. */
  class RoleActionImpl {
    const guild: Guild
    /** The permission flags defined by the platform, in declaration order. */
    const catalogue: seq<Permission>
    var permissions: Option<Int64>
    var name: Option<string>
    var color: Option<Int32>
    var hoisted: Option<bool>
    var mentionable: Option<bool>

    /** The attributes as one value. */
    function Fields(): (f: RoleFields)
      reads this
    {
      RoleFields(name, color, permissions, hoisted, mentionable)
    }

    /** The stored mask, when there is one, is one `setPermissions` accepted. */
    ghost predicate Valid()
      reads this
    {
      ValidCatalogue(catalogue) && Validate(catalogue, guild.selfPermissions, permissions).Pass?
    }

    /** A new builder: every attribute unset. */
    constructor (guild: Guild, catalogue: seq<Permission>)
      requires ValidCatalogue(catalogue)
      ensures Valid()
      ensures this.guild == guild && this.catalogue == catalogue
      ensures Fields() == Unset
    {
      this.guild := guild;
      this.catalogue := catalogue;
      permissions, name, color, hoisted, mentionable := None, None, None, None, None;
    }

    /** Stores the name as given, null included; returns this builder. */
    method SetName(name: Option<string>) returns (self: RoleActionImpl)
      requires Valid()
      modifies this
      ensures Valid() && self == this
      ensures Fields() == old(Fields()).(name := name)
    {
      this.name := name;
      self := this;
    }

    /** Stores the hoist flag as given, null included; returns this builder. */
    method SetHoisted(hoisted: Option<bool>) returns (self: RoleActionImpl)
      requires Valid()
      modifies this
      ensures Valid() && self == this
      ensures Fields() == old(Fields()).(hoisted := hoisted)
    {
      this.hoisted := hoisted;
      self := this;
    }

    /** Stores the mentionable flag as given, null included; returns this builder. */
    method SetMentionable(mentionable: Option<bool>) returns (self: RoleActionImpl)
      requires Valid()
      modifies this
      ensures Valid() && self == this
      ensures Fields() == old(Fields()).(mentionable := mentionable)
    {
      this.mentionable := mentionable;
      self := this;
    }

    /** Stores the colour as given, unmasked, null included; returns this builder. */
    method SetColor(rgb: Option<Int32>) returns (self: RoleActionImpl)
      requires Valid()
      modifies this
      ensures Valid() && self == this
      ensures Fields() == old(Fields()).(color := rgb)
    {
      this.color := rgb;
      self := this;
    }

    /**
     * Validates, then stores, the permission mask. On failure it throws
     * before the assignment, so nothing changes.
     */
    method SetPermissions(permissions: Option<Int64>) returns (r: Result<RoleActionImpl, Error>)
      requires Valid()
      modifies this
      ensures Valid()
      ensures var out := Validate(catalogue, guild.selfPermissions, permissions);
        if out.Pass? then r == Success(this) && Fields() == old(Fields()).(permissions := permissions)
        else r == Failure(out.error) && Fields() == old(Fields())
    {
      if permissions.Some? {
        var m := permissions.value;
        if m < 0 {
          return Failure(IllegalArgument(NegativeMessage));
        }
        if !(m <= AllPermissions(catalogue)) {
          return Failure(IllegalArgument(AboveAllMessage));
        }
        var flags := Decode(catalogue, m);
        var i := 0;
        while i < |flags|
          invariant 0 <= i <= |flags|
          invariant forall j :: 0 <= j < i ==> flags[j] in guild.selfPermissions
          modifies {}
        {
          var checked := CheckPermission(flags[i]);
          if checked.Fail? {
            return Failure(checked.error);
          }
          i := i + 1;
        }
      }
      this.permissions := permissions;
      r := Success(this);
    }

    /** Throws, naming the flag, unless the self member holds it. */
    method CheckPermission(permission: Permission) returns (out: Outcome<Error>)
      ensures out.Pass? <==> permission in guild.selfPermissions
      ensures out.Fail? ==> out.error == InsufficientPermission(permission)
    {
      if permission !in guild.selfPermissions {
        return Fail(InsufficientPermission(permission));
      }
      out := Pass;
    }

    /** Assembles the request body key by key; reads the attributes, changes none. */
    method FinalizeData() returns (obj: map<string, Json>)
      requires Valid()
      ensures obj == Payload(Fields())
      ensures "permissions" in obj ==>
        obj["permissions"].JNumber? && 0 <= obj["permissions"].num <= AllPermissions(catalogue)
    {
      obj := map[];
      if name.Some? {
        obj := obj["name" := JString(name.value)];
      }
      if color.Some? {
        obj := obj["color" := JNumber(ColorBits(color.value))];
      }
      if permissions.Some? {
        obj := obj["permissions" := JNumber(permissions.value)];
      }
      if hoisted.Some? {
        obj := obj["hoist" := JBool(hoisted.value)];
      }
      if mentionable.Some? {
        obj := obj["mentionable" := JBool(mentionable.value)];
      }
    }
  }

  /** A builder on which no setter was called serialises to an empty object. */
  method UnsetPayload(guild: Guild, catalogue: seq<Permission>) returns (obj: map<string, Json>)
    requires ValidCatalogue(catalogue)
    ensures obj == map[]
  {
    var action := new RoleActionImpl(guild, catalogue);
    obj := action.FinalizeData();
  }

  /** Setting the name "Admins" and hoisting yields exactly those two keys. */
  method AdminsPayload(guild: Guild, catalogue: seq<Permission>) returns (obj: map<string, Json>)
    requires ValidCatalogue(catalogue)
    ensures obj == map["name" := JString("Admins"), "hoist" := JBool(true)]
  {
    var action := new RoleActionImpl(guild, catalogue);
    action := action.SetName(Some("Admins"));
    action := action.SetHoisted(Some(true));
    obj := action.FinalizeData();
  }

  /** A colour above 24 bits is cut, not refused: 0x1FFFFFF goes out as 0xFFFFFF. */
  method TruncatedColorPayload(guild: Guild, catalogue: seq<Permission>) returns (obj: map<string, Json>)
    requires ValidCatalogue(catalogue)
    ensures obj == map["color" := JNumber(0xFF_FFFF)]
  {
    var action := new RoleActionImpl(guild, catalogue);
    action := action.SetColor(Some(0x1FF_FFFF));
    obj := action.FinalizeData();
    assert obj["color"].num == 0x1FF_FFFF % 0x100_0000 == 0xFF_FFFF;
  }

  /**
   * A rejected mask leaves the previously accepted one in place, and
   * setting null afterwards clears it without any check.
   */
  method RejectedMaskKeepsStored(guild: Guild, catalogue: seq<Permission>, mask: Int64)
    returns (kept: map<string, Json>, cleared: map<string, Json>)
    requires ValidCatalogue(catalogue)
    requires Validate(catalogue, guild.selfPermissions, Some(mask)) == Pass
    ensures kept == map["permissions" := JNumber(mask)]
    ensures cleared == map[]
  {
    var action := new RoleActionImpl(guild, catalogue);
    var accepted := action.SetPermissions(Some(mask));
    var rejected := action.SetPermissions(Some(-1));
    assert rejected == Failure(IllegalArgument(NegativeMessage));
    kept := action.FinalizeData();
    var unset := action.SetPermissions(None);
    cleared := action.FinalizeData();
  }
}
