# Skin-disease portal: a Dafny model of the upload pipeline, accounts and access checks

This project models the core of the skin-disease portal's back end and one front-end component:

- **Multer file filter** (`fileFilter`). Multer runs it inside `uploadMiddleware`, before the handler; it is modelled on its own.
- **Image upload handler** (`uploadImage`). It receives the file multer kept, or none, and stores the image row. It then runs the analysis script and maps its output into a feature row and a classification row. Failures are partial: the image is kept when the analysis fails. The model proves the answers and the rows written for every way a run can end.
- **Retrieval handlers** (`getUserImages`, `getImageById`). They join an image with its URL, its features and its classification.
- **`image_features` table accessors** (`featureModel.js`). Missing or falsy features fall back to defaults: `|| 0`, `|| 'unknown'` and `? 1 : 0`.
- **`users` table accessors** (`userModel.js`) and the **account handlers** (`register`, `login`, `getAllUsers`).
- **Bearer-token middleware** (`auth.js`).
- **Landing page** (`Hero.jsx`). Only the client-side extension check and the three-slide carousel are modelled.

JavaScript values are modelled exactly where the code depends on them: truthiness, `||`, a property read that throws on `null`/`undefined`, and `<` against a number (NaN compares false). Tables are classes with a row sequence and an auto-increment counter starting at 1. "The first row" means the first in insertion order.

The environment becomes parameters:

- clock values;
- the analysis script's outcome (`AnalyserRun`);
- which database writes throw (`Faults`);
- bcrypt's `hash`/`compare`;
- JWT `sign` with the server secret, given the instant of signing, and `verify`;
- the browser's object URL.

The code's filter accepts any `image/` mimetype, or any name whose extension is `.bmp` in any case (`ImageController.FileFilter`). The explicit `image/bmp` test is redundant. The landing page's client-side check accepts only jpg, jpeg and png (`Hero.Accepted`).

Neither image route is behind the auth middleware (`routes/imageRoutes.js:6-12`):

- `getImageById` checks no requester at all, so any client may read any image. The model's handler takes no requester.
- `getUserImages` has no route: `routes/imageRoutes.js:6-12` mounts only `/upload` and `/:id`, and the front end's `GET /images/user/me` (`frontend/src/services/api.js:88`) matches neither, since `/:id` spans one path segment. Only the controller test mounts the handler, behind `auth` (`tests/controllers/imageController.test.js:29`). `GetUserImages(images, userId, …)` follows that wiring, where `auth` has set `req.user.id`.
- Nothing sets `req.user` for the upload. `UploadImage` takes the user as an option. With `None`, reading `req.user.id` throws. So, were the routes loadable, every upload that carries a file would answer 500 before any row is written.

As shipped, the server does not start at all. `server.js:7` loads `routes/userRoutes.js`, whose line 4 destructures `{ auth, isAdmin }` from `middleware/auth.js`. That module exports a single function (`auth.js:26`), so both names are `undefined`. The route registration `router.get('/all', auth, isAdmin, …)` at `routes/userRoutes.js:9` then throws while the module loads. The handlers are modelled as the routes would invoke them once this is corrected.

## Model

| member | source | states |
|---|---|---|
| ImageController.ExtName | skin-disease-backend/controllers/imageController.js:29 | Node's POSIX `path.extname`: empty if and only if the last component has no dot, its only dot is its first character, or it is `..`; otherwise a suffix of that component that is a dot followed by dot-free text, so it starts at the component's last dot |
| ImageController.Extension | skin-disease-backend/controllers/imageController.js:29 | for one path component: empty exactly in the three no-extension cases, otherwise the suffix from its last dot |
| ImageController.ExtNameOfDotless | skin-disease-backend/controllers/imageController.js:29 | a path without a dot has the empty extension |
| ImageController.ExtNameOfHiddenName | skin-disease-backend/controllers/imageController.js:29 | `.e` with a dot- and slash-free `e`, such as `.bashrc`, has the empty extension |
| ImageController.ExtNameOfParent | skin-disease-backend/controllers/imageController.js:29 | `..` has the empty extension |
| ImageController.ExtNameOfTrailingDot | skin-disease-backend/controllers/imageController.js:29 | a dot- and slash-free name followed by a dot, such as `a.`, has the extension `.` |
| ImageController.ExtNameOfDottedName | skin-disease-backend/controllers/imageController.js:29 | a name ending in `.e`, with `e` non-empty and dot- and slash-free after a non-empty start of its last component, has extension `.e` |
| ImageController.BmpNameAccepted | skin-disease-backend/controllers/imageController.js:25-30 | whatever the mimetype, a name whose extension is `bmp` in any letter case passes the filter |
| ImageController.FileFilter | skin-disease-backend/controllers/imageController.js:25-34 | accepted exactly when the mimetype starts with `image/` or the lower-cased extension is `.bmp`; otherwise rejected with the "Not an image!" message |
| ImageController.LabelOf | skin-disease-backend/controllers/imageController.js:147-154 | throws if and only if the prediction is null or, without the `mel` code, its name is not a string; melanoma if and only if the code is `mel` or the lower-cased name contains `melanoma`; abnormal only below 70, normal only when not below 70 |
| ImageController.MelanomaByCode | skin-disease-backend/controllers/imageController.js:150-151 | class code `mel` gives melanoma whatever the name and confidence |
| ImageController.MelanomaByName | skin-disease-backend/controllers/imageController.js:150-151 | a name containing `melanoma` in any ASCII case gives melanoma whatever the confidence |
| ImageController.ConfidenceThreshold | skin-disease-backend/controllers/imageController.js:149-154 | with no melanoma match: abnormal if and only if confidence < 70, normal if and only if confidence >= 70 |
| ImageController.MissingConfidenceIsNormal | skin-disease-backend/controllers/imageController.js:152 | a missing confidence compares as NaN, so the label is normal, not abnormal |
| ImageController.NonStringNameThrows | skin-disease-backend/controllers/imageController.js:150 | once the code test fails, a name that is not a string makes the label computation throw, so no classification row |
| ImageController.ConfidenceScore | skin-disease-backend/controllers/imageController.js:157 | the percentage when it is truthy, otherwise the probability times 100, which is a number or NaN |
| ImageController.HasPredictions | skin-disease-backend/controllers/imageController.js:144 | a list is read only from a non-null classification with a non-null list; for an array it holds if and only if the array is non-empty |
| ImageController.ScoreIsPercent | skin-disease-backend/controllers/imageController.js:157 | `confidence_percent || probability * 100` lies in [0, 100] when the percentage is in (0, 100], or is falsy with a probability in [0, 1] |
| ImageController.ClassificationToSave | skin-disease-backend/controllers/imageController.js:144-163 | nothing is saved if and only if there is no non-empty prediction list; otherwise the top prediction's label and score, or the error its label throws |
| ImageController.OnlyTopPredictionCounts | skin-disease-backend/controllers/imageController.js:147 | two prediction lists with the same element 0 save the same classification |
| ImageController.MelanomaExample | skin-disease-backend/controllers/imageController.js:147-157 | a `mel` prediction at 60 percent is saved as melanoma with score 60 |
| ImageController.FeatureData | skin-disease-backend/controllers/imageController.js:119-132 | the handler's `featureData` object defaults to exactly the record the features themselves default to |
| ImageController.FeatureRecordToSave | skin-disease-backend/controllers/imageController.js:116-136 | a feature row is attempted if and only if the features are truthy; its record equals one application of the table's defaulting, even after the handler's own mapping |
| ImageController.Extract | skin-disease-backend/controllers/imageController.js:109-112 | the features and classification members are read if and only if the output parsed to a non-null document |
| ImageController.StoredPath | skin-disease-backend/controllers/imageController.js:75 | the stored path has the disk path's length, every backslash turned into a slash and no backslash left |
| ImageController.CreatedResponse | skin-disease-backend/controllers/imageController.js:181-189 | a 201 success for the image id with the path behind a leading slash; the analysis members are the parsed ones, or null when extraction failed |
| ImageController.AnalysisFailureIsSoft | skin-disease-backend/controllers/imageController.js:172-189 | a failed, missing, unreadable or null analysis still answers 201 success with the image id, `processingError` and message set to the soft-error text, and null features/classification |
| ImageController.ProcessingErrorExactly | skin-disease-backend/controllers/imageController.js:175-188 | `processingError` is set if and only if the analysis failed or the temporary file could not be removed; the message repeats it, otherwise reports success |
| ImageController.FeatureRowsSaved | skin-disease-backend/controllers/imageController.js:116-141 | at most one feature row is written, and it refers to the new image |
| ImageController.ClassificationRowsSaved | skin-disease-backend/controllers/imageController.js:144-168 | at most one classification row is written, and it refers to the new image |
| ImageController.UploadImage | skin-disease-backend/controllers/imageController.js:68-193 | no file: 400 and no table changes; a file but no `req.user`, or a failing image insert: 500 and no table changes; otherwise the 201 body and every table's exact new rows and counter, with foreign keys and fresh ids kept |
| ImageController.Ingest | skin-disease-backend/controllers/imageController.js:74-189 | appends the image row under the next id and the best-effort feature and classification rows, each counter advancing by the rows it handed out; the new image, its features and its classification read back exactly as saved |
| ImageController.StoreAndAnalyse | skin-disease-backend/controllers/imageController.js:78-189 | the image row under the next id, the rows ProcessImage adds, each counter advanced by its new rows, and the 201 body built from the handler's locals |
| ImageController.ProcessImage | skin-disease-backend/controllers/imageController.js:81-179 | final `features`, `classification` and `processingError` for each analyser outcome; the two inserts happen independently, each skipped on its own failure; each table grows by exactly its saved rows and its counter by their number |
| ImageController.SaveFeatures | skin-disease-backend/controllers/imageController.js:116-141 | a row is inserted if and only if the features are truthy and the insert does not fail; the table grows by exactly that row and its counter by one for it |
| ImageController.SaveClassification | skin-disease-backend/controllers/imageController.js:144-168 | a row is inserted if and only if there are predictions, the top label can be computed and the insert does not fail; the table grows by exactly that row and its counter by one for it |
| ImageController.UploadReadsBack | skin-disease-backend/controllers/imageController.js:196-220 | after an upload the new image, its features and its classification read back exactly as saved, and the foreign keys hold |
| ImageController.PickNewImageRow | skin-disease-backend/controllers/imageController.js:78 | a row under a fresh id is the one found by that id |
| ImageController.PickNewRows | skin-disease-backend/controllers/imageController.js:136-163 | the feature or classification row an upload adds for a new image is the first, and only, row found for it |
| ImageController.WithImageUrls | skin-disease-backend/controllers/imageController.js:55-58 | every image kept in order, each with the URL `protocol://host/image_path` |
| ImageController.GetUserImages | skin-disease-backend/controllers/imageController.js:49-60 | exactly the requesting user's images, each with its URL, in the listing's newest-first order |
| ImageController.GetImageById | skin-disease-backend/controllers/imageController.js:196-220 | 404 if and only if no image has the id; otherwise the image found by id, its URL, and the first feature and the first classification row for it, each null if and only if none exists |
| FeatureModel.ColourFlag | skin-disease-backend/models/featureModel.js:34-39 | 1 if and only if the value is truthy |
| FeatureModel.Normalize | skin-disease-backend/models/featureModel.js:26-40 | for each of the twelve columns: a truthy input value is kept; a falsy one becomes 0 for asymmetry and `'unknown'` for the five categoricals; each of the six colour flags is 1 if and only if its input is truthy |
| FeatureModel.NormalizeIdempotent | skin-disease-backend/tests/models/featureModel.test.js:13-57 | an object carrying an already defaulted record is stored unchanged |
| FeatureModel.NormalizeTwice | skin-disease-backend/controllers/imageController.js:119-136 | defaulting twice (the handler, then the table) equals defaulting once |
| FeatureModel.MissingKeysGiveDefaults | skin-disease-backend/tests/setup.js:22-36 | an object with none of the twelve lower-case keys (for example capitalised ones) is stored as all defaults |
| FeatureModel.FeatureTable.Create | skin-disease-backend/models/featureModel.js:4-43 | appends the defaulted row for the image under the next id and returns that id |
| FeatureModel.FeatureTable.FindByImageId | skin-disease-backend/models/featureModel.js:45-51 | the first row for the image, or none if and only if no row refers to it |
| FeatureModel.FeatureTable.Update | skin-disease-backend/models/featureModel.js:53-101 | rows with the id get the defaulted record, all others are unchanged, and the answer is true even when nothing matched |
| ImageStores.OwnedBy | skin-disease-backend/controllers/imageController.js:52 | a row is kept if and only if it belongs to the user |
| ImageStores.OwnedByConcat | skin-disease-backend/controllers/imageController.js:52 | the owner selection (not the listing order) commutes with concatenation: the selection from an earlier part of the table precedes that from a later one |
| ImageStores.OwnedByAppend | skin-disease-backend/controllers/imageController.js:52 | in the owner selection in table order, a new row of the user comes last; another user's new row changes nothing |
| ImageStores.NewestFirst | skin-disease-backend/tests/models/imageModel.test.js:114 | the listing holds exactly the user's rows |
| ImageStores.NewestFirstAppend | skin-disease-backend/tests/models/imageModel.test.js:114 | a new image of the user heads the listing, ahead of all earlier ones (`ORDER BY upload_date DESC`); another user's new image changes nothing |
| ImageStores.NewestFirstIsReversedSelection | skin-disease-backend/tests/models/imageModel.test.js:114 | the newest-first listing is the owner selection in table order, reversed |
| ImageStores.ImageStore.Create | skin-disease-backend/controllers/imageController.js:78 | appends the image row under the next id and returns it |
| ImageStores.ImageStore.FindById | skin-disease-backend/controllers/imageController.js:199 | the row with the id, or none if and only if there is none |
| ImageStores.ImageStore.FindByUserId | skin-disease-backend/controllers/imageController.js:52 | exactly the user's rows, newest first: the owner selection in table order reversed |
| ImageStores.ClassificationStore.Create | skin-disease-backend/controllers/imageController.js:159-163 | appends the classification row under the next id |
| ImageStores.ClassificationStore.FindByImageId | skin-disease-backend/controllers/imageController.js:213 | a row for the image, or none if and only if there is none |
| UserModel.AsObject | skin-disease-backend/models/userModel.js:15 | `SELECT *` includes the stored password hash and every public column |
| UserModel.PublicUser.AsObject | skin-disease-backend/models/userModel.js:20 | the projection's JSON object has exactly the columns id, name, email, role, created_at, never the password |
| UserModel.Public | skin-disease-backend/models/userModel.js:20 | the projection agrees with the full row on every column it has |
| UserModel.RoleOrDefault | skin-disease-backend/models/userModel.js:5 | the given role when there is one, `'patient'` otherwise |
| UserModel.UserTable.Create | skin-disease-backend/models/userModel.js:5-12 | appends a row with `hash(password)` and the given role or `'patient'` under the next id; the row is then found by id, and by e-mail unless an older row had that e-mail |
| UserModel.UserTable.Insert | skin-disease-backend/models/userModel.js:7-11 | the INSERT appends the row under the next id and advances the counter; ids stay fresh |
| UserModel.UserTable.FindByEmail | skin-disease-backend/models/userModel.js:14-17 | the first full row whose e-mail equals the given one exactly, in table order, or none if and only if no row has it |
| UserModel.UserTable.FindById | skin-disease-backend/models/userModel.js:19-22 | the public projection of the row with that id, without a password; none if and only if no row has it |
| UserModel.UserTable.FindAll | skin-disease-backend/tests/controllers/userController.test.js:175-192 | every user's public projection, in table order, none with a password |
| UserController.Register | skin-disease-backend/controllers/userController.js:7-29 | taken e-mail: 400 and the table unchanged; a failure before the row exists (hashing or the insert): 500 and the table unchanged; otherwise the new row is appended, the counter advances by one and the e-mail is now taken, and the answer is 201 with its public projection and a token for its id and role signed at the registration instant, or 500 "Server error" with the row kept when signing throws, so a retry gets 400; e-mails stay unique |
| UserController.RegisterNew | skin-disease-backend/controllers/userController.js:18-28 | for a new e-mail: the row appended under the next id whatever follows, the counter advanced by one, the e-mail found as that row; 201 with the public projection and the token signed at the registration instant when signing succeeds, else 500; at any later instant at which signing succeeds, the new user can log in with the same password and gets a token for the same id and role signed at that instant |
| UserController.UniqueAfterFreshEmail | skin-disease-backend/controllers/userController.js:12-18 | adding a row whose e-mail is new keeps e-mails unique |
| UserController.NewUserCanLogIn | skin-disease-backend/controllers/userController.js:36-53 | a user whose password matches the stored hash logs in at a given instant with the row minus its password and the token for its id and role signed at that instant, whenever signing succeeds |
| UserController.Login | skin-disease-backend/controllers/userController.js:31-58 | 400 "Invalid credentials" if and only if no user has the e-mail or the password does not match; 500 "Server error" if and only if the comparison rejects, or the password matches and signing throws; success if and only if the password matches and signing succeeds, with the token for the row's id and role signed at the login instant and the row with exactly the password removed |
| UserController.LoginKeepsPublicColumns | skin-disease-backend/controllers/userController.js:50-53 | the logged-in user object carries every column `findById` shows, with the same values |
| UserController.RowId | skin-disease-backend/controllers/userController.js:63 | a value names a row id only when it is that non-negative integer |
| UserController.Requester | skin-disease-backend/controllers/userController.js:63 | `findById(req.user.id)` for an id-valued `req.user.id` |
| UserController.GetAllUsersAsWritten | skin-disease-backend/controllers/userController.js:60-76 | never a list: 403 "Access denied…" if and only if the requester exists and is not an admin, otherwise 500 "Server error" |
| UserController.GetAllUsers | skin-disease-backend/controllers/userController.js:60-76 | a list if and only if the requester exists and is an admin; then every user's public projection, no passwords; the denials are those of the code as written |
| UserController.AdminListingFailsAsWritten | skin-disease-backend/controllers/userController.js:69 | for an admin's request, the handler as written answers 500 and the corrected one lists the users |
| Text.ReplaceFirst | skin-disease-backend/middleware/auth.js:12 | `String.replace` with a string pattern: only the first occurrence is replaced |
| Text.FindFirst | skin-disease-backend/middleware/auth.js:12 | the first position where the pattern occurs, or none if it never does |
| Text.ReplaceAllChar | skin-disease-backend/controllers/imageController.js:75 | every backslash becomes a slash, nothing else changes |
| Text.Lower | skin-disease-backend/controllers/imageController.js:150 | ASCII lower-casing, character by character, length kept |
| Text.Split | frontend/src/components/Hero.jsx:24 | `split('.')`: at least one part, no part contains the separator, and joining the parts gives back the string |
| Text.LastPartIsSuffix | frontend/src/components/Hero.jsx:24 | `pop()` of the split is the suffix after the last dot, or the whole name when it has no dot |
| Auth.BearerToken | skin-disease-backend/middleware/auth.js:12 | a header without `Bearer ` is kept whole; otherwise it is the header with its first `Bearer ` cut out |
| Auth.BearerStripped | skin-disease-backend/middleware/auth.js:12 | the token of `Bearer <t>` is exactly `t` |
| Auth.Decide | skin-disease-backend/middleware/auth.js:4-24 | missing/empty header or empty token: 401 "Authentication required"; failed verification or null payload: 401 "Authentication failed"; otherwise pass with the payload's id |
| Auth.BareSchemeRequiresAuth | skin-disease-backend/middleware/auth.js:12-15 | the header `Bearer ` alone is "Authentication required" whatever the verifier does |
| Auth.BearerHeaderPasses | skin-disease-backend/middleware/auth.js:12-19 | `Bearer <t>` with a non-empty `t` passes if and only if `t` verifies to a non-null payload |
| Auth.Authenticate | skin-disease-backend/middleware/auth.js:4-24 | either sets `req.user` and calls `next` once with nothing sent, or sends 401 with the reason and calls nothing |
| Hero.Extension | frontend/src/components/Hero.jsx:24 | the lower-cased extension contains no dot |
| Hero.Accepted | frontend/src/components/Hero.jsx:25 | the page takes a file when its extension is jpg, jpeg or png (defined here; its properties are the lemmas below) |
| Hero.AcceptedByLastDot | frontend/src/components/Hero.jsx:24-25 | a file is accepted if and only if the text after its last dot (or the whole dotless name), lower-cased, is jpg, jpeg or png |
| Hero.AcceptedWithExtension | frontend/src/components/Hero.jsx:24-25 | a name ending in `.e`, with `e` dot-free, is accepted if and only if `e` lower-cased is jpg, jpeg or png, whatever precedes it |
| Hero.UpperCaseExtensionAccepted | frontend/src/components/Hero.jsx:24-25 | any name ending in `.JPG` is accepted |
| Hero.InnerExtensionIgnored | frontend/src/components/Hero.jsx:24-25 | any name ending in `.png.exe` is rejected |
| Hero.LastExtensionDecides | frontend/src/components/Hero.jsx:24-25 | any name ending in `.exe.png` is accepted |
| Hero.DotlessNameIsItsOwnExtension | frontend/src/components/Hero.jsx:24-25 | a name without a dot is accepted if and only if the whole name, lower-cased, is jpg, jpeg or png |
| Hero.NextSlide | frontend/src/components/Hero.jsx:15 | the next slide index is in range, one more, wrapping from the last to 0 |
| Hero.SlideAfter | frontend/src/components/Hero.jsx:3-16 | the slide shown after any number of timer periods is a valid slide index |
| Hero.SlideAfterWraps | frontend/src/components/Hero.jsx:3-16 | `k` timer periods after slide `i` the carousel shows slide `(i + k) mod 3` |
| Hero.EverySlideShown | frontend/src/components/Hero.jsx:3-16 | from any slide, every slide is shown within three timer periods |
| Hero.HeroState.Tick | frontend/src/components/Hero.jsx:13-19 | the carousel advances to the next slide and the preview is unchanged |
| Hero.HeroState.HandleFileChange | frontend/src/components/Hero.jsx:21-31 | no file: nothing; accepted name: the preview becomes the object URL, no alert; other names: the alert text and the old preview |

## Left out

- Multer storage (`imageController.js:13-22`) is not modelled: destination and generated file name. So is the 10 MB size limit. The stored path is a parameter.
- The analysis script, process execution, the temporary-directory creation and the file reads are not modelled. They reduce to the `AnalyserRun` outcome. A stderr log has no effect on behaviour.
- Asynchrony, logging and `console` output are not modelled.
- `JSON.stringify` dropping `undefined` members in responses is not modelled.
- DB connection failures are not modelled, except the insert faults named in `Faults` and the registration insert (`insertFails`). So the catch blocks are modelled only for the throws named here: a failing registration insert or hash, a rejecting `compare` and a throwing `sign`. The 500 answers for a failing query are not modelled in `getUserImages` and `getImageById`. Nor are they modelled in `register` (userController.js:25-28) for `findByEmail`/`findById`, nor in `login` (userController.js:54-57) for `findByEmail`.
- UserModel.UserTable.FindByEmail models the SQL `WHERE email = ?` (`userModel.js:15`) as exact string equality. No schema ships with the code, so the column's collation is unknown; MySQL's default collations ignore letter case, and PAD SPACE collations also ignore trailing spaces. Neither case folding nor space padding is modelled. So `UserController.EmailsUnique`, the "User already exists" test in `Register` and the lookup in `Login` all mean exact equality: under a case-insensitive collation, registering `Bob@X.com` after `bob@x.com` answers 400 in the source but 201 here, and logging in as `BOB@x.com` succeeds in the source but answers 400 here.
- `models/imageModel.js` and `models/classificationModel.js` are not part of this model. `ImageStores` gives them the minimal contracts the handlers rely on. Their SQL is not visible here.
- ImageStores.ImageStore.FindByUserId takes its order from the model test (`tests/models/imageModel.test.js:114`, `ORDER BY upload_date DESC`). That test exercises `findUserImages`, while the controller calls `findByUserId`. The test file also describes a different `imageModel` from the one the controller uses. It has a four-argument `create(userId, filename, originalName, path)` (`imageModel.test.js:24`, `:29`) and a `path` column. The controller calls `imageModel.create(userId, imagePath)` (`imageController.js:78`) and reads `image.image_path` (`imageController.js:57`, `:206`). So the order is only weakly sourced. The model reads newest first as the reverse of insertion order. That holds if the database clock never goes backwards. Rows stamped in the same second have no defined SQL order; the model lists the later insert first.
- SQL column types are not modelled. The image, feature, classification and user stores keep the values the model hands them (numbers as exact reals, see the next line), so "read back exactly as saved" (`ImageController.Ingest`, `ImageController.UploadReadsBack`) does not include the database's coercion on insert, such as a truthy string `asymmetry` stored into a numeric column.
- ImageController.ConfidenceScore computes with exact reals: JavaScript numbers are modelled as `real`, and `probability * 100` (`imageController.js:157`) is not rounded to an IEEE 754 double. For a top prediction `{probability: 0.57}` with no truthy `confidence_percent`, the model saves 57 while JavaScript passes 56.99999999999999 to `classificationModel.create`. Floating point is not modelled anywhere; the label reads `confidence_percent` without arithmetic, so its `< 70` comparison is unaffected, and rounding is monotone, so the [0, 100] bound of `ImageController.ScoreIsPercent` still holds; only the stored score can differ from the source's in its last bits.
- JavaScript `ToNumber` of non-empty strings and of arrays is not modelled: those compare as NaN here. Case mapping outside ASCII is not modelled either.
- `req.params.id` reaches `getImageById` as a string. The model takes the numeric id MySQL would match.
- The route wiring is not modelled beyond its effect on `req.user`. `routes/imageRoutes.js:6-12` mounts both image routes without the auth middleware. `UploadImage` models this through its optional user. The server cannot start as shipped: `routes/userRoutes.js:4` destructures `{ auth, isAdmin }` from a module that exports a single function, and `routes/userRoutes.js:9` registers those two `undefined` values, which throws during loading. This startup failure is not modelled; every handler is modelled as it would run once the routes load.
- ImageController.FileFilter is not called by UploadImage. Multer runs it inside `uploadMiddleware` (`imageController.js:36-45`). A rejected file goes down multer's error path to Express's error handler and never reaches the handler. That path is not modelled.
- ImageController.ExtName follows POSIX `path.extname`. The backslash rewrite at `imageController.js:75` suggests a Windows host. There Node applies win32 rules (backslash separators, drive letters), which are not modelled.
- UploadImage takes `req.user` as present with a numeric id, or absent. A `req.user` without a usable `id` is not modelled.
- The token's expiry is not modelled. `sign` is given the instant of signing, from which a real JWT derives its `iat` and `exp`. What `verify` makes of an expired token lives inside its parameter.
- FeatureModel.FeatureTable.Create requires a non-null features object. With `null` or `undefined`, the source's destructuring throws before any query, and the model does not represent that throw. The same holds for FeatureModel.FeatureTable.Update.
- UserModel.UserTable.Create takes the role as present or absent. An explicit `null` role, which the SQL default would not replace, is not modelled.
- UserController.RowId treats only numeric ids as row ids. MySQL's coercion of numeric strings is not modelled.
- ImageController.ProcessImage does not model `fs.unlinkSync` deleting the file, only whether it throws.

## Findings

| source | as written | input that shows it | evidently intended | confidence | as-written member | corrected member |
|---|---|---|---|---|---|---|
| skin-disease-backend/controllers/userController.js:69 | the admin branch calls `userModel.findAll()`, which models/userModel.js does not define, so the call throws and is answered 500 "Server error" | GET of the user list by an authenticated user whose row has role `admin` | 200 with the list of every user's public columns, as the controller test expects with a mocked `findAll` | not executed; follows from the module's three accessors | UserController.GetAllUsersAsWritten | UserController.GetAllUsers |
