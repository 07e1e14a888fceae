# Churn project: a verified model of its rule sets

The churn project is a Tk desktop application around a telco customer-churn
data set: a training script, an analytics screen, a prediction form, sign-up
validators, a CAPTCHA page and a controller that switches between views. Most
of it is GUI, database, web and e-mail plumbing. This Dafny project models the
deterministic logic underneath and proves what that logic promises.

| module | file | models |
|---|---|---|
| `Frames` | frames.dfy | a pandas data frame as ordered column names plus rows mapping names to `Str`, `Num` or `Missing`; dropping, replacing and appending columns |
| `Numbers` | numbers.dfy | `pd.to_numeric(..., errors='coerce')` on text cells |
| `Labels` | labels.dfy | the fixed `Series.map` dictionaries: churn label, chart label, contract scale |
| `ChurnEncoding` | churn_encoding.dfy | churn.py:33-59: column classification, contract scale, label encoding, one-hot expansion |
| `ChurnPrep` | churn_prep.dfy | churn.py:24-78: cleaning, engineered features, feature selection |
| `Validators` | validators.dfy | utils.py: the password, phone, e-mail and number validators |
| `Controller` | controller.dfy | controller.py and main.py: the view registry, navigation and the CAPTCHA hand-off, as a state machine with an event trace |
| `Analytics` | analytics.dfy | analytics.py:69-105: cleaning for the charts and the four optional range filters |
| `PredictionForm` | prediction_form.dfy | churn1.py:82-152: the input checks of the prediction form, the record given to the model, the displayed label, model loading |
| `Captcha` | captcha.dfy | captcha_page.py:72-94: the generated text and the check of an entry |
| `TextOrder`, `Wrappers` | text_order.dfy, wrappers.dfy | Python's string order, sorting without repetition; `Option` and `Result` |

A table is `Frame(columns, rows)`. It is `WellFormed` when column names are
distinct and every row is keyed by exactly the columns, and `Homogeneous` when
no column mixes text with numbers. That is the shape `read_csv` gives the
scripts. Failures the scripts raise (a `KeyError` for a missing column, a
`TypeError` for comparing text with a number) are `Result` errors. Values the
program reads from outside (the random CAPTCHA characters, `float()` of a text
entry, the loaded classifier, whether a file exists) are parameters.

The controller is a pure transition function on
`State(views, current, loggedIn, nextId, trace)`:

- `views` is the registry in insertion order. Each name holds either a `Factory` or an `Instance` with an id.
- `trace` records `Created`, `Shown`, `Hidden` and `Destroyed` events.
- Python keeps only the last `def show_view` of a class body, so the model uses the one at controller.py:96-102.
- The first one (controller.py:45-72), with its login gate, never runs.

## Model

| member | source | states |
|---|---|---|
| `Numbers.ToNumeric` | churn.py:27 | coercion never leaves text; numbers and missing values pass through; a text cell becomes a number exactly when it is a decimal numeral, and then holds the value that numeral parses to |
| `Numbers.ParseNatRoundTrip` | churn.py:27 | parsing the printed digits of a natural number, with or without a minus sign, gives that number back |
| `Numbers.BlankIsMissing` | churn.py:27 | every text without a digit, and so every blank cell of `TotalCharges`, becomes a missing value |
| `Numbers.DecimalValue` | churn.py:27 | a numeral `w.d` parses to the whole part plus the fraction digits divided by ten to the power of their count, and `-w.d` to its negation |
| `Numbers.ChargesExample` | churn.py:27 | the charge text "29.85" coerces to the number 29.85 |
| `Labels.ChurnCode` | churn.py:31 | "No" maps to 0, "Yes" to 1, and every other value to missing, each as an if-and-only-if |
| `Labels.ChurnStatus` | analytics.py:77 | 0 maps to "No", 1 to "Yes", anything else to missing |
| `Labels.ContractCode` | churn.py:50-52 | the k-th contract name maps to k+1, and a value is missing exactly when it is not one of the three names |
| `Labels.ContractScaleMonotone` | churn.py:50-52 | a longer contract gets a strictly larger code |
| `Labels.ChurnStatusRoundTrip` | analytics.py:76-77 | coding a churn label and mapping the code back gives the label for "Yes" and "No", missing otherwise |
| `ChurnEncoding.TextCells` | churn.py:45 | the texts collected from a column are exactly the texts occurring in it |
| `ChurnEncoding.CategoriesSpec` | churn.py:45 | a column's categories are strictly sorted and are exactly the texts occurring in it, so their number is `nunique()` |
| `ChurnEncoding.TextColumnHasCategory` | churn.py:34 | a column is an object column exactly when it has at least one category |
| `ChurnEncoding.TextColumns` | churn.py:34 | the selected columns are exactly the text columns, without repetition |
| `ChurnEncoding.SplitByCardinality` | churn.py:44-48 | candidates with exactly two categories go to the first list and all others to the second; the lists partition the candidates |
| `ChurnEncoding.Classify` | churn.py:34-48 | a text `Contract` is the only ordinal column; other text columns are binary iff they have two categories and nominal otherwise; every text column is in exactly one class |
| `ChurnEncoding.MapContract` | churn.py:50-52 | every `Contract` cell is replaced by its code; all other cells and the shape are kept |
| `ChurnEncoding.EncodeLabels` | churn.py:54-56 | each listed column gets the codes of an encoder fitted to that column alone and holds no text afterwards; other cells are kept |
| `ChurnEncoding.BinaryCodes` | churn.py:54-56 | in a two-category column each value is coded 0 or 1, and 0 exactly for the smaller value |
| `ChurnEncoding.Indicators` | churn.py:59 | one indicator exists per nominal column and per category occurring in it, and no other |
| `ChurnEncoding.IndicatorsOrder` | churn.py:59 | indicators come in blocks in the order of the nominal columns, and within a block in strictly increasing category order |
| `ChurnEncoding.FirstDuplicate` | churn.py:59 | no duplicate is found exactly when the column names are distinct |
| `ChurnEncoding.GetDummies` | churn.py:58-59 | the columns are the kept ones in their order followed by the indicator names in plan order; kept columns keep their cells; every indicator column holds the row's 0/1 membership; it succeeds exactly when every nominal column exists and no name repeats, and otherwise reports the missing column or the clash |
| `ChurnEncoding.EncodeColumns` | churn.py:33-59 | encoding succeeds exactly when there is no nominal column or the kept names and indicator names are all different; the columns are then the kept ones followed by the indicators of the input's nominal columns |
| `ChurnEncoding.EncodeShape` | churn.py:33-59 | after encoding no cell holds text and no row is lost; the only way encoding fails is a clash of generated column names |
| `ChurnEncoding.EncodeKeepsNumeric` | churn.py:34 | only text (`object`) columns are encoded: every column that was already numeric survives with the same cells |
| `ChurnEncoding.EncodeCodes` | churn.py:50-56 | `Contract`, when it is text, carries the 1/2/3 contract scale; every binary column carries the label code of its value among its sorted categories |
| `ChurnEncoding.EncodeNominal` | churn.py:58-59 | every (nominal column, category) pair becomes an indicator column whose cell says whether the row held that category |
| `ChurnEncoding.EncodeStages` | churn.py:40-56 | the frame before `get_dummies`: the contract and label codes applied, every other column untouched |
| `ChurnEncoding.ContractStage` | churn.py:50-52 | the contract scale is applied only when `Contract` is a text column, and touches no other column |
| `ChurnEncoding.LabelStage` | churn.py:54-56 | label-encoding the binary columns of the contract-mapped frame gives each of them the codes of the original column's categories and leaves every other column as it was |
| `ChurnEncoding.EncodeNoText` | churn.py:40-56 | after the contract and label codes, only nominal columns still hold text |
| `ChurnEncoding.DummiesNoText` | churn.py:58-59 | expanding the remaining text columns leaves no text anywhere |
| `ChurnPrep.PerTenure` | churn.py:62-63 | the ratio is `a / (tenure + 1)` for a non-negative tenure; a missing operand gives a missing ratio |
| `ChurnPrep.ShortTenure` | churn.py:64 | the flag is 0 or 1, and 1 exactly when the tenure is a number below 12 |
| `ChurnPrep.Product` | churn.py:65 | the product is a number exactly when both operands are, and is then their product |
| `ChurnPrep.FlagProduct` | churn.py:66 | the product of two 0/1 flags is a 0/1 flag that is 1 exactly when both are 1 |
| `ChurnPrep.AddColumns` | churn.py:62-66 | assigning columns keeps the existing ones in front and appends only the new names |
| `ChurnPrep.Engineer` | churn.py:62-66 | fails with a KeyError exactly when an input column is absent, naming one of them; otherwise the existing columns stay in front, the five columns are added and no row is lost |
| `ChurnPrep.EngineerRowCells` | churn.py:62-66 | in one row: the two ratios are charges over tenure + 1 for a non-negative tenure, the short-tenure flag is 0/1 and 1 exactly below 12, the engagement score is charges times contract code, and the billing flag of two 0/1 inputs is 1 exactly when both are |
| `ChurnPrep.EngineeredCells` | churn.py:62-66 | the same five cell values hold on every row of an engineered frame, each computed from that row's own inputs |
| `ChurnPrep.SelectFeatures` | churn.py:71-75 | the features are all columns except `Churn`, in order; the 0.15 threshold is not applied |
| `ChurnPrep.CoerceTotalCharges` | churn.py:27 | `TotalCharges` is coerced cell by cell and nothing else changes |
| `ChurnPrep.LabelChurn` | churn.py:31 | `Churn` carries the 0/1 code of each row's label and nothing else changes |
| `ChurnPrep.Clean` | churn.py:27-31 | succeeds exactly when `TotalCharges`, `Churn` and the four dropped columns exist; a KeyError names `TotalCharges` exactly when it is absent, or a dropped column when one of the four is absent; on success every row is kept with its coded label |
| `ChurnPrep.CleanPresent` | churn.py:28-31 | with `TotalCharges` present, cleaning succeeds exactly when `Churn` and the four dropped columns exist, and a KeyError names a dropped column or `Churn` |
| `ChurnPrep.CleanCells` | churn.py:27-31 | cleaning removes exactly the four dropped columns, coerces every `TotalCharges` cell, and keeps every cell it neither drops nor labels |
| `ChurnPrep.PrepareSpec` | churn.py:24-78 | preprocessing keeps every row (nothing is de-duplicated), leaves no text, codes `Churn` per row, and selects exactly the columns other than `Churn` |
| `ChurnPrep.PrepareSucceeds` | churn.py:24-78 | preprocessing succeeds exactly when cleaning succeeds, encoding yields no clashing names, and the six columns the engineering reads exist after encoding |
| `ChurnPrep.PrepareFailures` | churn.py:24-78 | preprocessing fails only with a KeyError or a name clash, and a cleaning error is reported as is |
| `ChurnPrep.PrepareStages` | churn.py:24-78 | a successful run passes through cleaning, encoding and engineering in that order, and encoding keeps the `Churn` codes |
| `ChurnPrep.EngineeredExample` | churn.py:62-66 | a worked row: the ratios are 70/6 and 350/6, the short-tenure flag is 1, the engagement score is 70 and the billing flag is 1 |
| `Validators.ValidatePassword` | utils.py:31-41 | valid exactly when the password has at least 8 characters, an ASCII upper-case letter, a lower-case letter and a digit; otherwise the message of the first failing check in order length, upper, lower, digit |
| `Validators.ValidatePhone` | utils.py:17-20 | accepts exactly an optional '+', then 10 to 15 ASCII digits, then an optional final newline |
| `Validators.PhoneScan` | utils.py:17-20 | where the digit scan stops decides the match: the digits after an optional '+' must reach the optional final newline and number 10 to 15 |
| `Validators.PhoneFormUnique` | utils.py:19 | a string matches at most one arrangement of the optional '+' and newline |
| `Validators.ValidateEmailMatchesPattern` | utils.py:12-15 | the validator accepts exactly the strings in the language of the e-mail pattern |
| `Validators.EmailFormUnique` | utils.py:14 | a matched address splits in only one way: at its only '@' and the first '.' after it |
| `Validators.EmailHasOneAt` | utils.py:14 | an accepted address contains exactly one '@', with a non-empty local part before it |
| `Validators.ValidateNumber` | utils.py:63-73 | false for an unparsable value, false below the minimum or above the maximum, true otherwise; both bounds are inclusive |
| `Controller.Lookup` | controller.py:21 | a name resolves exactly when it is registered, to the entry stored under it |
| `Controller.Put` | controller.py:17 | storing under a name replaces its entry in place or appends it, and leaves every other name's entry as it was |
| `Controller.Remove` | controller.py:112 | deleting a registered name leaves the other names and their entries |
| `Controller.Init` | controller.py:4-11 | the controller starts logged out, with no current view, an empty trace and only `captcha` registered, as a factory |
| `Controller.RegisterView` | controller.py:13-17 | the name then holds a factory for the class; other names are unchanged |
| `Controller.GetView` | controller.py:19-27 | an unknown name gives none and no change; an instance is returned as is; a factory is replaced by a new instance, created once |
| `Controller.GetViewIdempotent` | controller.py:19-27 | a second lookup of the same name returns the same instance and changes nothing |
| `Controller.ShowView` | controller.py:96-102 | the current view is hidden; the named view becomes current and is shown if registered, else nothing is current; the logged-in flag plays no part |
| `Controller.ShowViewIgnoresLogin` | controller.py:96-102 | showing a view does the same whether or not the user is logged in |
| `Controller.HideInstances` | controller.py:33-37 | only instantiated views are hidden, and every one of them is |
| `Controller.HideInstancesInOrder` | controller.py:33-37 | hiding follows registry order: a split registry hides its first part and then its second, and one entry yields one `Hidden` event exactly when it is an instance |
| `Controller.ResetAllViews` | controller.py:29-43 | every instance is hidden, the user is logged out, and `login` is shown exactly when it is registered, otherwise nothing is current |
| `Controller.LoginSuccess` | controller.py:74-80 | the user is logged in and the dashboard is shown when registered |
| `Controller.Logout` | controller.py:82-86 | the user is logged out and the login view is shown when registered |
| `Controller.GoToRegister` | controller.py:88-90 | the register view is shown when registered; the login flag is unchanged |
| `Controller.GoToLogin` | controller.py:92-94 | the login view is shown when registered; the login flag is unchanged |
| `Controller.DiscardCaptcha` | controller.py:108-112 | a CAPTCHA instance is destroyed, a factory is not, and the name is unregistered |
| `Controller.OnCaptchaSuccess` | controller.py:104-121 | `captcha` is a fresh factory again, the previous view is not hidden, and the dashboard is current and shown when registered |
| `Controller.OnCaptchaSuccessHidesNothing` | controller.py:117-121 | the CAPTCHA hand-off adds no `Hidden` event to the trace |
| `Controller.ShowViewInv` | controller.py:96-102 | showing keeps the registry invariant: distinct names, instances created once with distinct ids, and a current view that was created |
| `Controller.ResetAllViewsInv` | controller.py:29-43 | resetting keeps the registry invariant |
| `Controller.LoginSuccessInv` | controller.py:74-80 | logging in keeps the registry invariant |
| `Controller.LogoutInv` | controller.py:82-86 | logging out keeps the registry invariant |
| `Controller.OnCaptchaSuccessInv` | controller.py:104-121 | the CAPTCHA hand-off keeps the registry invariant |
| `Controller.StartupShowsLogin` | main.py:10-18 | after start-up the registry is captcha, login, register, dashboard; only the login view was created and shown; the user is logged out |
| `Analytics.Present` | analytics.py:72-73 | the names kept are exactly the listed ones the frame has |
| `Analytics.DropForCharts` | analytics.py:69-74 | fails exactly when `TotalCharges` or `customerID` is absent; otherwise the four columns are gone, charges are coerced and every other cell is kept |
| `Analytics.LabelForCharts` | analytics.py:76-82 | fails exactly when `Churn` is absent; otherwise it adds the coded label, the chart label and the contract scale (missing without `Contract`) |
| `Analytics.DropPresent` | analytics.py:72-74 | dropping only names that are present never fails and keeps every other cell |
| `Analytics.CleanForChartsErrors` | analytics.py:69-82 | cleaning fails exactly when `TotalCharges`, `customerID` or `Churn` is missing, with a KeyError for the first of them |
| `Analytics.CleanForChartsLabels` | analytics.py:76-82 | `ChurnStatus` equals the raw label for "Yes" and "No" and is missing otherwise; `ContractMapped` is the contract code |
| `Analytics.CleanForChartsCharges` | analytics.py:69 | cleaned total charges are the coerced raw ones |
| `Analytics.CleanForChartsChurn` | analytics.py:76 | the cleaned `Churn` is the 0/1 code of the raw label |
| `Analytics.CleanForChartsKeeps` | analytics.py:69-82 | every cell of a column the cleaning neither coerces, codes nor adds is the raw cell |
| `Analytics.Where` | analytics.py:86-105 | the filtered rows are among the input rows and pass every bound |
| `Analytics.WhereIsSubsequence` | analytics.py:86-105 | filtering only removes rows and keeps the others in order |
| `Analytics.WhereCounts` | analytics.py:86-105 | a row passing every bound is kept as often as it occurs, and any other row is removed |
| `Analytics.WhereThenWhere` | analytics.py:86-105 | filtering by some bounds and then others equals filtering by all of them at once |
| `Analytics.WhereOrderFree` | analytics.py:86-105 | the result depends only on which bounds apply, not their order |
| `Analytics.ApplyBound` | analytics.py:88 | a missing column raises KeyError, a text cell raises TypeError, otherwise exactly the rows within the inclusive bound remain |
| `Analytics.ApplyBounds` | analytics.py:86-105 | the filters succeed exactly when every bound is applicable, and then equal the all-at-once filter; an error names a bound's column |
| `Analytics.ColumnBounds` | analytics.py:86-95 | one column's lower bound is present exactly when the minimum entry parsed and its upper bound exactly when the maximum did, and no bound names another column |
| `Analytics.Parsed` | analytics.py:86-105 | each bound is applied exactly when its entry parsed, to `tenure` or `MonthlyCharges` only |
| `Analytics.AdmittedInRange` | analytics.py:86-105 | a row passing every parsed bound has its tenure and monthly charges within the entered limits |
| `Analytics.ParsedAdmits` | analytics.py:86-105 | a row passes the parsed bounds exactly when its tenure and monthly charges lie within the entered limits |
| `Analytics.InRangeAdmitted` | analytics.py:86-105 | a row within the entered limits passes every parsed bound |
| `Analytics.ChartData` | analytics.py:69-105 | succeeds exactly when cleaning succeeds and the bounds are applicable, passes a cleaning error on unchanged, and is then the cleaned table filtered by the parsed bounds, each kept row within every bound inclusively |
| `Analytics.ChartDataRows` | analytics.py:69-105 | each cleaned row within every entered range is plotted as often as it occurs in the cleaned table, and no other row is plotted |
| `PredictionForm.Record` | churn1.py:127-136 | the model gets one row with exactly the five named columns holding the entered values |
| `PredictionForm.ClassLabel` | churn1.py:144 | the label is "Churn" exactly when the prediction is 1 and "No Churn" otherwise |
| `PredictionForm.PredictChurn` | churn1.py:97-152 | checks run in order tenure, monthly charges, total charges, contract, payment method, and the first failure's message is reported; with no model the result is "Prediction model not loaded"; otherwise a prediction when the model answers and "Failed to make prediction" when it raises |
| `PredictionForm.LoadModel` | churn1.py:82-95 | a missing file clears the model, a successful load replaces it, and a failed load keeps the previous one |
| `PredictionForm.InitialModel` | churn1.py:82-95 | starting from no model, a model is present exactly when the file exists and loads |
| `Captcha.Generate` | captcha_page.py:80 | the text has 6 characters, each the alphabet character at the chosen position |
| `Captcha.GenerateOnto` | captcha_page.py:80 | every 6-character string over A-Z and 0-9 can be generated |
| `Captcha.Strip` | captcha_page.py:89 | the result is the entry with its leading and trailing whitespace removed |
| `Captcha.StrippedUnique` | captcha_page.py:89 | a string has only one stripped form |
| `Captcha.StripPadding` | captcha_page.py:89 | whitespace around an entry does not change its stripped form |
| `Captcha.UpperMatchesIgnoringCase` | captcha_page.py:89 | an ASCII entry upper-cases to an alphabet text exactly when it equals the text letter by letter in either case |
| `Captcha.AcceptsIgnoringCaseAndPadding` | captcha_page.py:89 | an ASCII entry is accepted exactly when, without surrounding whitespace, it is the text in any mix of upper and lower case |
| `Captcha.SharpSAccepted` | captcha_page.py:89 | the five-character non-ASCII entry "ßabcd" upper-cases to "SSABCD" and is accepted for that text |
| `Captcha.BlankNeverAccepted` | captcha_page.py:72-89 | an empty or all-whitespace entry is never accepted |
| `Captcha.VerifyCaptcha` | captcha_page.py:87-94 | an accepted entry keeps the page and hands over to the controller if there is one; a rejected one shows the retry message and draws a new text |
| `Captcha.VerifyKeepsText` | captcha_page.py:72-94 | the page always holds a valid text, and a blank entry always shows the retry message |

## Left out

- Widgets, layout, styling, image rendering of the CAPTCHA, message boxes, `print` logging and `root.update()` are not modelled. Only the decisions they display are.
- Databases, the web endpoints, e-mail, the `requests` call, threading and the modules built on them (login, register, dashboard, settings, customer details, forgot password, verify, db, gmail service) are not modelled. Their logic is SQL or network I/O.
- Model training, scaling, resampling, grid search, metrics, SHAP and plots (churn.py:80 onwards, analytics.py:106 onwards) are library numerics. They are outside the model.
- The classifier is a parameter, `Classifier(predict, churnProbability)`. No adapter between the training script and the form is modelled, because the training script never saves the model the form loads.
- Randomness: `random.choices` is replaced by the six alphabet positions it picks, passed in as `picks`.
- Floating point: charges and ratios are exact reals. NaN is `Missing`. A NaN given to `validate_number` is unordered in Python and so passes both bound checks; the model has no NaN.
- `x / 0` for a tenure of -1 gives infinity in pandas. The model gives `Missing`.
- `float()` and `pd.to_numeric` are modelled by an `Option<real>` parameter and by a plain decimal grammar (sign, digits, optional fraction). Exponents, surrounding whitespace, underscores and the spellings `inf`/`nan` are not modelled.
- `LabelEncoder` sorts categories by Python's string order and gives a missing value the next code after them. Codes are modelled for text and missing cells only.
- `get_dummies` would accept a generated name that repeats an existing column. The model reports a `DuplicateColumn` error instead, since a frame with two equal names is outside the model.
- Input frames are assumed to have distinct column names and no column mixing text and numbers (`WellFormed`, `Homogeneous`), as `read_csv` produces them.
- `Captcha.UpperChar` models `str.upper` exactly for ASCII letters and for the characters whose upper case is all ASCII letters (dotless i, long s, sharp s, the ff/fi/fl/ffi/ffl/st ligatures). Any other character is kept as is. Its Python upper case contains a character outside A-Z and 0-9, so the comparison with a generated text comes out the same.
- `PredictionForm.PredictChurn`: the probability is returned as a real. Its `:.2%` formatting is not modelled.
- `PredictionForm.PredictChurn`: `if self.model:` is modelled as "a model is loaded". A loaded model object that Python treats as false is not modelled.
- The first `show_view` (controller.py:45-72) is not modelled, since the later definition replaces it.
- `Controller.HideInstances` tells views apart by class name. `hasattr(view, 'hide')` holds for every registered view class, and `destroy` exists only on the CAPTCHA page.
- The duplicate check at churn.py:25 discards its result and is therefore not modelled. `PrepareSpec` states that every row is kept.
- The controller's `initializing` flag is set and never read, so it is not part of the state.
- `Captcha.AcceptsIgnoringCaseAndPadding` is stated for ASCII entries only. An entry using characters whose upper case is longer or ASCII (ß, dotless ı, long ſ, the ligatures) can also pass without being the text in mixed case, as `Captcha.SharpSAccepted` shows.
- pandas 2 `get_dummies` gives boolean indicator columns. The model stores them as the numbers 0 and 1, which is what the later arithmetic and correlation see.
- `PredictionForm.PredictChurn` takes a classifier whose prediction is an integer class. A model trained on text labels is not modelled, since the script codes `Churn` as 0/1 before training.
