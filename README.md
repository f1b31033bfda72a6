# aclimate_v3_orm_frontend validators and queries, in Dafny

This project models the logic of the `aclimate_v3_orm_frontend` data-access layer. It covers three entities:

- an **App**, unique on (name, country_ext_id);
- a **User** of an app, unique on (ext_key_clock_id, app_id), with a profile;
- a **WsInterested** record saying that a user follows a weather station, unique on (user_id, ws_ext_id).

It models two parts of the code:

- **Validators** decide whether a create or a partial update may go ahead. They check required strings, length limits, positive keys, the profile enumeration, a non-empty notification object, and uniqueness of the composite key.
- **Query services** filter a table and turn each matching row into its Read schema.

Every operation is a pure function over a snapshot of the table, a `seq` of rows in the store's unspecified order. A Python `ValueError` becomes `Fail(e)` or `Failure(e)`, where `e` is a `FieldRules.ValueError` kind that names the check that raised.

Modules:

- `Wrappers`: Option, Result and Outcome. `Outcome.Then` sequences checks so that the first failure wins.
- `Text`:
  - `str.strip()`, using Python's `str.isspace()` character set;
  - the blank test;
  - ILIKE substring matching with ASCII case folding.
- `Tables`: the three query shapes.
  - `filter(...).all()` is `Where`, specified by counts, so nothing depends on order.
  - `filter(...).first()` is `FirstWhere`.
  - The Read projection is `Project`.
  - Python's truthiness of `exclude_id` is `Truthy` and `ExcludedBy`.
- `FieldRules`: the error kinds, plus the two rules every validator repeats (a required, length-limited string and a positive id).
- `ProfileTypes`: the profile enumeration and the string-to-enum conversion.
- `AppSchema`, `UserSchema`, `WsInterestedSchema`: the table rows and the Create, Update and Read shapes. `Merge` is the stored row after a partial update, and `Created` is the row a create inserts. The lemmas use both as reference points.
- `AppValidator`, `UserValidator`, `WsInterestedValidator`, `AppService`, `UserService`, `WsInterestedService`: one module per source file.

Query results are stated as multisets. For every row `a`, the number of times `ToRead(a)` appears in the result equals the number of times `a` appears in the table if `a` matches, and 0 otherwise. `ToRead` copies every column, so this fixes the result up to order. The source queries have no ORDER BY, so order is unspecified there too.

Each validator has an invariant partner: a table whose key pairs are unique keeps them unique after inserting a row that passed `CreateValidate`. For App and User, this also holds after applying an update that passed `UpdateValidate`.

## Model

| member | source | states |
|---|---|---|
| Text.StripEmptyIffBlank | src/aclimate_v3_orm_frontend/validations/app_validator.py:9 | `not s or not s.strip()` holds exactly when every character of `s` is whitespace |
| Text.ContainsIffOccurs | src/aclimate_v3_orm_frontend/services/app_service.py:46 | the left-to-right scan finds the needle exactly when it occurs at some position |
| Text.ILikeSubstring | src/aclimate_v3_orm_frontend/services/app_service.py:46 | for a pattern without `%`, `_` or `\`, `column ILIKE '%p%'` holds exactly when the ASCII-case-folded pattern occurs in the ASCII-case-folded column |
| Text.ILikeReflexive | src/aclimate_v3_orm_frontend/services/app_service.py:34-46 | every name matches itself under the modelled ILIKE (so not for names holding `\` on engines that read it as an escape), so an exact-name match is also a search match |
| Tables.Where | src/aclimate_v3_orm_frontend/services/app_service.py:22 | `filter(p).all()` returns each row satisfying `p` as often as the table holds it, and no other row |
| Tables.FirstWhere | src/aclimate_v3_orm_frontend/validations/app_validator.py:25-28 | `filter(p).first()` is None exactly when no row satisfies `p`, and otherwise is the first row that does |
| Tables.Project | src/aclimate_v3_orm_frontend/services/app_service.py:23 | the list comprehension gives one Read per row: same length, and each row's Read occurs as often as the row |
| FieldRules.RequiredString | src/aclimate_v3_orm_frontend/validations/app_validator.py:9-12 | blank fails "required"; a non-blank string fails "too long" exactly when it is over the limit; the emptiness check wins |
| FieldRules.PositiveId | src/aclimate_v3_orm_frontend/validations/user_validator.py:24-25 | an id passes exactly when it is > 0 |
| ProfileTypes.Parse | src/aclimate_v3_orm_frontend/services/user_service.py:22-25 | `ProfileType(token)` succeeds exactly when `token` is some member's value, and returns that member |
| ProfileTypes.ParseValue | src/aclimate_v3_orm_frontend/services/user_service.py:23 | converting a member's value gives back that member |
| AppValidator.ValidateName | src/aclimate_v3_orm_frontend/validations/app_validator.py:7-12 | blank fails "required"; otherwise the name fails exactly when it is over 255 characters |
| AppValidator.ValidateCountryExtId | src/aclimate_v3_orm_frontend/validations/app_validator.py:15-20 | blank fails "required"; otherwise the id fails exactly when it is over 50 characters |
| AppValidator.ValidateUniqueNameCountry | src/aclimate_v3_orm_frontend/validations/app_validator.py:23-29 | fails exactly when some row has the same name and country and is not excluded by a truthy `exclude_id` (None and 0 exclude nothing) |
| AppValidator.CreateValidate | src/aclimate_v3_orm_frontend/validations/app_validator.py:32-36 | passes exactly when both fields are acceptable and the pair is free; the name, country and duplicate errors come in that order |
| AppValidator.UpdateValidate | src/aclimate_v3_orm_frontend/validations/app_validator.py:39-66 | an update without name or country passes; a present field's error wins; both halves present means the update fails with DuplicateApp(name, country_ext_id) exactly when the new pair is taken by a row other than itself; one half with no stored row means no uniqueness check |
| AppValidator.UpdateChecksMergedPair | src/aclimate_v3_orm_frontend/validations/app_validator.py:53-66 | when the row exists, the pair checked is the pair of the row after the update, with the stored half filling the missing one |
| AppValidator.CreatePreservesUniquePairs | src/aclimate_v3_orm_frontend/validations/app_validator.py:32-36 | inserting a row that passed create validation keeps (name, country_ext_id) unique |
| AppValidator.UpdatePreservesUniquePairs | src/aclimate_v3_orm_frontend/validations/app_validator.py:39-66 | with unique, nonzero ids, applying an update that passed validation keeps the pairs unique |
| UserValidator.ValidateExtKeyClockId | src/aclimate_v3_orm_frontend/validations/user_validator.py:8-13 | blank fails "required"; otherwise the id fails exactly when it is over 255 characters |
| UserValidator.ValidateProfile | src/aclimate_v3_orm_frontend/validations/user_validator.py:16-19 | every ProfileType member passes |
| UserValidator.ValidateAppId | src/aclimate_v3_orm_frontend/validations/user_validator.py:22-25 | `app_id` fails exactly when it is <= 0 |
| UserValidator.ValidateUniqueKeycloakApp | src/aclimate_v3_orm_frontend/validations/user_validator.py:28-34 | fails exactly when some row has the same ext_key_clock_id and app_id and is not excluded by a truthy `exclude_id` |
| UserValidator.CreateValidate | src/aclimate_v3_orm_frontend/validations/user_validator.py:37-42 | passes exactly when the key is acceptable, `app_id` > 0 and the pair is free; errors come in source order; on an empty table only the field rules matter |
| UserValidator.UpdateValidate | src/aclimate_v3_orm_frontend/validations/user_validator.py:45-75 | an update of profile and enable alone passes; a present field's error wins; both halves present means the update fails with DuplicateUser(ext_key_clock_id, app_id) exactly when the new pair is taken by a row other than itself; one half with no stored row means no uniqueness check |
| UserValidator.UpdateChecksMergedPair | src/aclimate_v3_orm_frontend/validations/user_validator.py:62-75 | when the row exists, the pair checked is the pair of the row after the update |
| UserValidator.CreatePreservesUniquePairs | src/aclimate_v3_orm_frontend/validations/user_validator.py:37-42 | inserting a row that passed create validation keeps (ext_key_clock_id, app_id) unique |
| UserValidator.UpdatePreservesUniquePairs | src/aclimate_v3_orm_frontend/validations/user_validator.py:45-75 | with unique, nonzero ids, applying an update that passed validation keeps the pairs unique |
| WsInterestedValidator.ValidateUserId | src/aclimate_v3_orm_frontend/validations/ws_interested_validator.py:7-10 | `user_id` fails exactly when it is <= 0 |
| WsInterestedValidator.ValidateWsExtId | src/aclimate_v3_orm_frontend/validations/ws_interested_validator.py:13-18 | blank fails "required"; otherwise the id fails exactly when it is over 50 characters |
| WsInterestedValidator.ValidateNotification | src/aclimate_v3_orm_frontend/validations/ws_interested_validator.py:21-26 | a non-object fails "not an object"; the empty object fails "empty"; any non-empty object passes |
| WsInterestedValidator.ValidateUniqueUserWs | src/aclimate_v3_orm_frontend/validations/ws_interested_validator.py:29-38 | fails exactly when some row has the same user and station and is not excluded by a truthy `exclude_id` |
| WsInterestedValidator.CreateValidate | src/aclimate_v3_orm_frontend/validations/ws_interested_validator.py:41-46 | passes exactly when all three fields are acceptable and the pair is free; the user, station, notification and duplicate errors come in that order |
| WsInterestedValidator.UpdateValidate | src/aclimate_v3_orm_frontend/validations/ws_interested_validator.py:49-65 | an update with no user_id, no ws_ext_id and a notification that is absent or null passes; a present field's error wins; a duplicate error is only possible when both user_id and ws_ext_id are given, and then the update fails with DuplicateInterest(user_id, ws_ext_id) exactly when the new pair is taken by another row |
| WsInterestedValidator.CreatePreservesUniquePairs | src/aclimate_v3_orm_frontend/validations/ws_interested_validator.py:41-46 | inserting a row that passed create validation keeps (user_id, ws_ext_id) unique |
| WsInterestedValidator.UpdateCanDuplicatePair | src/aclimate_v3_orm_frontend/validations/ws_interested_validator.py:60-65 | a concrete table and one-field update that pass validation yet leave two rows with the same pair |
| WsInterestedValidator.UpdateValidateRederived | src/aclimate_v3_orm_frontend/validations/ws_interested_validator.py:49-65 | corrected update check: when the row exists, the pair checked is the pair of the row after the update |
| WsInterestedValidator.RederivedUpdatePreservesUniquePairs | src/aclimate_v3_orm_frontend/validations/ws_interested_validator.py:49-65 | with the corrected check, applying an update that passed keeps the pairs unique |
| AppService.GetByCountryExtId | src/aclimate_v3_orm_frontend/services/app_service.py:13-23 | exactly the rows with that country_ext_id and `enable == enabled`, one Read per row |
| AppService.GetByName | src/aclimate_v3_orm_frontend/services/app_service.py:25-35 | exactly the rows with that name and `enable == enabled`, one Read per row |
| AppService.SearchByName | src/aclimate_v3_orm_frontend/services/app_service.py:37-47 | exactly the rows whose name contains the argument ignoring case and whose `enable == enabled` |
| AppService.GetAll | src/aclimate_v3_orm_frontend/services/app_service.py:49-58 | exactly the rows with `enable == enabled`; with the default, no disabled app appears |
| AppService.ValidateCreate | src/aclimate_v3_orm_frontend/services/app_service.py:60-62 | the creation hook gives the same outcome as app create validation |
| AppService.GetByNameWithinSearch | src/aclimate_v3_orm_frontend/services/app_service.py:33-47 | for the same flag, every Read of the exact-name lookup is in the search result, counted with multiplicity, under the modelled ILIKE |
| AppService.SearchIsCaseInsensitiveSubstring | src/aclimate_v3_orm_frontend/services/app_service.py:37-47 | with apps "Test App" and "Other", searching "est" returns only "Test App" |
| UserService.GetByProfile | src/aclimate_v3_orm_frontend/services/user_service.py:13-29 | an unknown token fails with "invalid profile type" whatever the table; otherwise exactly the rows whose profile has that value and whose `enable == enabled` |
| UserService.GetByApp | src/aclimate_v3_orm_frontend/services/user_service.py:31-41 | exactly the rows with that app_id and `enable == enabled` |
| UserService.GetByExtKeyClockId | src/aclimate_v3_orm_frontend/services/user_service.py:43-53 | exactly the rows with that ext_key_clock_id and `enable == enabled` |
| UserService.GetAll | src/aclimate_v3_orm_frontend/services/user_service.py:55-64 | exactly the rows with `enable == enabled`; the default hides disabled users |
| UserService.GetByProfileAndApp | src/aclimate_v3_orm_frontend/services/user_service.py:66-87 | an unknown token fails; otherwise exactly the rows meeting all three equalities |
| UserService.ValidateCreate | src/aclimate_v3_orm_frontend/services/user_service.py:89-91 | the creation hook gives the same outcome as user create validation |
| UserService.ProfileAndAppIsIntersection | src/aclimate_v3_orm_frontend/services/user_service.py:76-87 | the combined lookup fails exactly when the profile lookup does, and otherwise is the multiset intersection of the profile and app lookups |
| WsInterestedService.GetByUser | src/aclimate_v3_orm_frontend/services/ws_interested_service.py:12-21 | exactly the rows with that user_id, one Read per row, with no enable filter |
| WsInterestedService.GetByWsExtId | src/aclimate_v3_orm_frontend/services/ws_interested_service.py:23-32 | exactly the rows with that ws_ext_id, with no enable filter |
| WsInterestedService.GetAll | src/aclimate_v3_orm_frontend/services/ws_interested_service.py:34-42 | every row once: as many Reads as rows, each row's Read as often as the row |
| WsInterestedService.ValidateCreate | src/aclimate_v3_orm_frontend/services/ws_interested_service.py:44-46 | the creation hook gives the same outcome as interest create validation |
| WsInterestedService.LookupsWithinAll | src/aclimate_v3_orm_frontend/services/ws_interested_service.py:12-42 | each key lookup's result is contained in get_all's result, counted with multiplicity |

## Left out

- Sessions, transactions and the engine (`database/__init__.py`) are I/O and configuration.
- The generic `BaseService` (create, get, update, delete, `_session_scope`) is not part of this model. `Created` and `Merge` only say what an insert or a partial update leaves in the row, so that the invariant lemmas can refer to it.
- ORM model declarations are not modelled. Timestamps come from the wall clock, so they are opaque values the store supplies, and `Created` leaves them unset.
- The Pydantic schemas' own `max_length` and `gt` enforcement is not modelled, and neither is `model_validate` coercion (for example, a profile string becoming the enum in `UserCreate`).
- Message texts are not modelled. Each `ValueError` is identified by its kind and the values it names.
- The field validators take a `string`, not an optional one. Their callers never pass None: Create schemas require the field, and updates skip absent fields.
- `ValidateProfile` takes a `ProfileType`, so the source's branch for a value outside the enum cannot occur.
- The `ProfileType` enum's module is not part of this model. It is modelled with the members FARMER and TECHNICIAN, whose values are their names.
- AppService.SearchByName: the model treats `%` and `_` in the argument literally, but ILIKE uses them as wildcards; it also treats `\` literally, which PostgreSQL and MySQL read as ILIKE's default escape character (no ESCAPE clause is given). Case folding is ASCII only, not the database's locale rules.
- Text.ILikeSubstring: the same gaps as the search: `%`, `_` and the escape character `\` in the pattern are matched literally, and case folding is ASCII only.
- String equality in filters is plain sequence equality. Database collation is not modelled.
- `users.app_id` and `ws_interested.user_id` are nullable columns, but the model gives them integer values, as the Read schemas do.
- `apps.enable` and `users.enable` are nullable columns (default true). A NULL row would match neither `enable == True` nor `enable == False`; the model's `enable` is always a boolean, so every row matches exactly one of them.
- The `notification` column is stored as `String(255)`, a mismatch with the dict the schemas carry. The model keeps the JSON value. JSON numbers are integers, with no floats.
- Concurrency: create-time uniqueness is check-then-act and can race with concurrent inserts. The model is sequential.

## Findings

| source | as written | input that shows it | evidently intended | confidence | as-written member | corrected member |
|---|---|---|---|---|---|---|
| src/aclimate_v3_orm_frontend/validations/ws_interested_validator.py:60-65 | an update checks (user_id, ws_ext_id) only when both are given | the table holds (id 1, user 1, "WS_1") and (id 2, user 1, "WS_2"); the update of id 2 carries only ws_ext_id = "WS_1". It passes, and two rows then hold (1, "WS_1") | as in the app and user validators, take the missing half from the stored row and check the merged pair | medium, not executed | WsInterestedValidator.UpdateCanDuplicatePair | WsInterestedValidator.RederivedUpdatePreservesUniquePairs |
