# RoleActionImpl, modelled in Dafny

This project models JDA's role-creation request builder, `RoleActionImpl`.
The builder is bound to one guild. It holds five optional role attributes:
name, colour, permission mask, hoist flag and mentionable flag. All five
start unset (Java `null`). Four setters store their argument as given and
return the builder. `setPermissions` checks the mask before it stores it:

- the mask must not be negative;
- it must not be numerically greater than `Permission.ALL_PERMISSIONS`;
- the bot's own member must hold every permission flag the mask decodes to.

`finalizeData` turns the attributes that are set into the JSON request body.
It writes one key per set attribute and cuts the colour to its low 24 bits.

Files:

- `bits.dfy` (module `Bits`): Java's `&` on two's-complement integers with
  a non-negative right operand, and Java's `|` on non-negative operands,
  both defined bit by bit, with the facts the model needs. One example
  is that `a & (2^k - 1)` is `a mod 2^k`, for negative `a` too.
- `permissions.dfy` (module `Permissions`): the permission catalogue as a
  parameter. A catalogue is the sequence of defined flags in declaration
  order, each flag given by its bit offset. The module defines
  `ALL_PERMISSIONS` as the OR of their raw values, and the decoding of a mask
  into flags.
- `wrappers.dfy` (module `Wrappers`): `Option` for Java's nullable boxes,
  `Result` and `Outcome` for calls that may throw.
- `role_action.dfy` (module `RoleAction`): the class `RoleActionImpl` with
  its fields and setters. It also holds the specification functions
  `Validate` and `Payload`, the lemmas about them, and client methods that
  run the builder end to end.

The class invariant `Valid()` says that a stored mask is always one that
`setPermissions` accepted. Every setter keeps it.

## Model

| member | source | states |
|---|---|---|
| `RoleAction.RoleActionImpl.constructor` | src/main/java/net/dv8tion/jda/internal/requests/restaction/RoleActionImpl.java:37-54 | a new builder is bound to its guild, has all five attributes unset, and satisfies the invariant |
| `RoleAction.RoleActionImpl.SetName` | src/main/java/net/dv8tion/jda/internal/requests/restaction/RoleActionImpl.java:70-74 | stores the name unchanged, null included; the other attributes keep their values; returns the same builder |
| `RoleAction.RoleActionImpl.SetHoisted` | src/main/java/net/dv8tion/jda/internal/requests/restaction/RoleActionImpl.java:78-82 | stores the hoist flag unchanged, null included; nothing else changes; returns the same builder |
| `RoleAction.RoleActionImpl.SetMentionable` | src/main/java/net/dv8tion/jda/internal/requests/restaction/RoleActionImpl.java:86-90 | stores the mentionable flag unchanged, null included; nothing else changes; returns the same builder |
| `RoleAction.RoleActionImpl.SetColor` | src/main/java/net/dv8tion/jda/internal/requests/restaction/RoleActionImpl.java:94-98 | stores the colour unmasked, null included; nothing else changes; returns the same builder |
| `RoleAction.RoleActionImpl.SetPermissions` | src/main/java/net/dv8tion/jda/internal/requests/restaction/RoleActionImpl.java:102-113 | on acceptance by `Validate`, stores the mask exactly and returns the builder; otherwise throws `Validate`'s error and changes nothing; keeps the invariant |
| `RoleAction.RoleActionImpl.CheckPermission` | src/main/java/net/dv8tion/jda/internal/requests/restaction/RoleActionImpl.java:139-143 | passes exactly when the self member holds the flag; otherwise throws insufficient-permission naming that flag |
| `RoleAction.RoleActionImpl.FinalizeData` | src/main/java/net/dv8tion/jda/internal/requests/restaction/RoleActionImpl.java:116-131 | builds, key by key and without changing the builder, the body `Payload` describes for the current attributes; a "permissions" value it sends lies in 0..ALL_PERMISSIONS, because the builder only ever stores accepted masks |
| `RoleAction.Validate` | src/main/java/net/dv8tion/jda/internal/requests/restaction/RoleActionImpl.java:104-111 | null passes; a non-null mask passes exactly when 0 <= m <= ALL_PERMISSIONS and every defined flag set in m is held; a negative mask, then a mask above the bound, is an illegal argument; any other failure is insufficient-permission, naming a defined, set, unheld flag before which, in catalogue order, every set flag is held |
| `RoleAction.FirstMissing` | src/main/java/net/dv8tion/jda/internal/requests/restaction/RoleActionImpl.java:108-109 | the index the check loop stops at is the first decoded flag the member does not hold; every earlier decoded flag is held |
| `RoleAction.FirstMissingInOrder` | src/main/java/net/dv8tion/jda/internal/requests/restaction/RoleActionImpl.java:108-109 | the flag the check loop stops at is the first unheld one in catalogue order: every catalogue flag before it whose bit is set in the mask is held |
| `RoleAction.ColorBits` | src/main/java/net/dv8tion/jda/internal/requests/restaction/RoleActionImpl.java:122 | `color & 0xFFFFFF` lies in 0..16777215 and equals the colour modulo 2^24, for negative and oversized ints too |
| `RoleAction.Payload` | src/main/java/net/dv8tion/jda/internal/requests/restaction/RoleActionImpl.java:118-128 | the keys are exactly the set attributes, named "name", "color", "permissions", "hoist", "mentionable"; name, permissions and flags are the stored values; colour is in range and congruent to the stored one |
| `RoleAction.UndefinedBitUnchecked` | src/main/java/net/dv8tion/jda/internal/requests/restaction/RoleActionImpl.java:107-108 | the bound is numeric: with flags at bits 0 and 2, mask 2 carries an undefined bit, decodes to no flag, and is accepted from a member holding nothing |
| `RoleAction.HeldMaskAccepted` | src/main/java/net/dv8tion/jda/internal/requests/restaction/RoleActionImpl.java:104-111 | a non-negative mask made only of flags the member holds is accepted |
| `RoleAction.FullMaskNeedsEveryFlag` | src/main/java/net/dv8tion/jda/internal/requests/restaction/RoleActionImpl.java:107-109 | ALL_PERMISSIONS fits in a long and is accepted exactly when the member holds every defined flag |
| `RoleAction.UnsetPayload` | src/main/java/net/dv8tion/jda/internal/requests/restaction/RoleActionImpl.java:38-42 | a builder on which no setter was called serialises to the empty object |
| `RoleAction.AdminsPayload` | src/main/java/net/dv8tion/jda/internal/requests/restaction/RoleActionImpl.java:70-82 | setting name "Admins" and hoist true yields exactly `{"name": "Admins", "hoist": true}` |
| `RoleAction.TruncatedColorPayload` | src/main/java/net/dv8tion/jda/internal/requests/restaction/RoleActionImpl.java:94-98 | colour 0x1FFFFFF is stored and then sent as 0xFFFFFF, with no error |
| `RoleAction.RejectedMaskKeepsStored` | src/main/java/net/dv8tion/jda/internal/requests/restaction/RoleActionImpl.java:104-112 | after an accepted mask, a rejected one leaves it in the body; a later null clears it without checks |
| `Permissions.AllPermissions` | src/main/java/net/dv8tion/jda/internal/requests/restaction/RoleActionImpl.java:107 | ALL_PERMISSIONS has a bit set exactly where some defined flag sits |
| `Permissions.Decode` | src/main/java/net/dv8tion/jda/internal/requests/restaction/RoleActionImpl.java:108 | a mask decodes to exactly the defined flags whose bit it has set; other bits decode to nothing |
| `Permissions.DefinedMaskWithinBound` | src/main/java/net/dv8tion/jda/internal/requests/restaction/RoleActionImpl.java:107 | a mask whose bits are all defined is at most ALL_PERMISSIONS (bit inclusion implies the numeric bound) |
| `Permissions.DecodeAll` | src/main/java/net/dv8tion/jda/internal/requests/restaction/RoleActionImpl.java:108 | ALL_PERMISSIONS decodes to every flag of the catalogue |
| `Permissions.AllPermissionsFitsLong` | src/main/java/net/dv8tion/jda/internal/requests/restaction/RoleActionImpl.java:107 | with every flag below bit 63, ALL_PERMISSIONS is below 2^63 |
| `Bits.BitAndLowMask` | src/main/java/net/dv8tion/jda/internal/requests/restaction/RoleActionImpl.java:122 | `a & (2^k - 1)` equals `a mod 2^k` for every integer a |

## Left out

- The `Permission` enumeration is not part of this model. The catalogue of
  defined flags is a parameter: a sequence of bit offsets, all below 63.
  The enumeration's `UNKNOWN` entry, which has no bit, is not modelled.
  `Permission.getPermissions` is modelled as "every defined flag whose bit
  is set in the mask, in declaration order".
- `Member.hasPermission` is not part of this model. The self member's
  permissions are a fixed set of flags carried by the guild value. Overrides
  such as the administrator flag granting everything are not modelled. So
  is any change to the member's permissions after the builder was made.
- The wording of the negative-mask message comes from `Checks.notNegative`,
  which is not part of this model. The model uses "Raw Permissions may not
  be negative".
- The constructor's route compilation (`Route.Roles.CREATE_ROLE.compile`),
  the superclass `AuditableRestActionImpl`, and the HTTP body encoding
  (`getRequestBody`, OkHttp's `RequestBody`) are left out. The body is
  modelled as a map from key to JSON value, not as bytes.
- `setCheck` and `getGuild` are left out. They only delegate to the
  superclass or return the guild. Execution, the precondition check and
  asynchronous delivery are left out with them.
- `handleSuccess` is left out. It passes the response to the entity
  builder, a foreign call that decodes JSON into a `Role`.
- Java's `NullPointerException` for a null guild is not modelled. Dafny
  references are non-null.
