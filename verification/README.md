# Wage ledger: a verified model

The repository is a local, Persian-language accounting program for installation crews. A project has
a labour amount; each worker on it gets a percentage of that amount or a fixed sum; the shop keeps
the rest. Workers are paid over time, projects have expenses, customers pay in instalments, dates are
Jalali, and the whole state is one SQLite file that is backed up and restored.

This project models that logic in Dafny and proves what it promises, for every input and over every
run. It has four parts.

**The calendar** (`Calendar`, `Jalali`, `DateText`, `DateReading`). `Calendar` says what the two calendars are: leap
rules, month lengths, what day comes next, counting days year by year and month by month, and finding
a day's date by walking. `Jalali` holds the program's fast arithmetic as methods, each proved to reach
the date that the walk reaches, for all integer years. From that follow exact inverses, order
preservation, and the meaning of the accepted but non-existent days (31 in a 30-day month), which roll
over. `DateText` carries this to typed text and to the ISO strings that the reports compare, and
`DateReading` says exactly which texts are dates, in ASCII, Persian and Arabic digits.

**Money** (`Text`, `Arithmetic`, `Rounding`, `Shares`, `MoneyText`, `PercentText`, `ProjectForm`,
`Preview`). Rounding to even, its error over a whole split, printing undone by parsing, the browser's
field formatter, a percent field as browser and server read it, and the live preview of the project form
against the server's check. Percents are integers scaled by 10 000, the four decimals the parser keeps.

**The ledger** (`Tables`, `Ledger`, `LedgerInvariant`, `Queries`, `Balances`, `Effects`, `Reports`,
`EditForm`, `RefusedForm`, `PaymentForm`, `Scenarios`, `LedgerStore`). `Ledger` is a state machine: the tables of the schema and a step for every request
that writes to them, with outcomes accepted, refused (a guard of the program) and failed (an exception
or a constraint; the transaction is rolled back). `LedgerInvariant` proves what every reachable ledger
satisfies. The queries are several computations over the same rows, and `Queries` and `Reports` prove
that they agree. `EditForm`, `RefusedForm` and `PaymentForm` follow a page from the ledger to the browser and
back; `Scenarios` reaches the failing sides by short runs. `LedgerStore.Store` is the database as an object whose methods change the tables in
place, branch by branch, each proved to make its step and to keep the invariant.

**Backups** (`BackupNames`, `Backups`, `BackupRuns`, `BackupStore`). The disk as a target file and a
folder of named copies; import, restore, backup and prune; safety over whole runs; and
`BackupStore.Store`, which performs the steps in place.

Results where the code does less than one might expect are stated exactly:

- An untouched edit form changes nothing exactly when no amount in it prints as a blank field
  (`EditForm.UntouchedFormChangesNothing`); a customer total of 0 turns into the labour amount
  (`EditForm.UntouchedFormChangesTotal`).
- A refused form that is shown again and posted untouched is refused again exactly when its name or labour
  field was blank, a listed fixed share is unreadable or zero, or the shares exceed the labour amount as
  shown (`RefusedForm.ShownFormRefused`). Forms in which everything can be read keep their verdict
  (`RefusedForm.CleanFormKeepsVerdict`); the labour amount "abc" and a percent of 150 come back as 0 and are
  accepted (`RefusedForm.WordBecomesZero`, `RefusedForm.TooMuchBecomesNothing`).
- The server's check is on rounded shares. An accepted form may ask for more than the labour amount by half
  a unit for each percent row and no more (`ProjectForm.AcceptedFormSplit`,
  `ProjectForm.AcceptedExcessAttained`); a form is sure to be accepted while it stays more than that below
  the labour amount plus one (`ProjectForm.ModestFormAccepted`), and two halves of 3, which ask for exactly
  3, are refused (`ProjectForm.ExactFormRefused`).
- A day that its month does not have is stored as typed but shown rolled over wherever it is derived from
  the ISO date (`DateText.ShownDate`), as 1403/07/31 is (`DateText.ThirtyFirstOfMehr`).
- Days after 9378/10/10 have no ISO form (`DateText.IsoFormExactly`). Such a bound is no bound
  (`Reports.RangeSelectsJalaliDays`): a report from 9999/01/01 covers everything
  (`Scenarios.DistantBoundSelectsAll`).
- The preview can warn about a form that the server accepts, when the excess is all ties
  (`Preview.WarningMeansRefusal`, `Preview.TiesWarnWithoutRefusal`).
- The preview speaks only of rows that browser and server read alike (`Preview.AlikeExactly`). A percent is
  read as the same number exactly when its ASCII digits alone spell it (`PercentText.PercentsAgree`), and
  cut by the server after four decimals (`Preview.AsciiPercentIsAlike`, `Preview.CutPercentBound`). Percents
  copied from a page are in Persian digits, zero to the browser, so a refusal can come without a warning
  (`PercentText.PastedPercentIsZero`, `Preview.PersianPercentsUnwarned`).
- The browser's money field keeps what the server would have read from a typed text exactly when the
  ASCII digits in it alone spell the rounded number (`MoneyText.FieldKeepsAmount`): without Persian or
  Arabic digits, when the text is refused and holds no digit or its number has no decimals or is zero
  (`MoneyText.AsciiFieldKeepsAmount`); without ASCII digits, never for a text the server reads
  (`MoneyText.ForeignFieldKeepsAmount`). So 12.5 becomes 125, -5 becomes 5
  (`MoneyText.FieldChangesAmounts`), and an amount pasted in Persian digits, as every page shows it, is
  wiped (`MoneyText.PastedPersianIsWiped`).
- No balance is negative at any point of a run exactly when no request of it is a confirmed overpayment
  or takes more of a worker's share away than is still owed; the confirmation flag alone does no harm
  (`Balances.CarefulRunsNeverOverdraw`). A confirmed advance overdraws, and so does, without any
  confirmation, deleting a project whose workers are settled (`Scenarios.AdvanceOverdraws`,
  `Scenarios.DeletionOverdraws`).
- Deleting a project overdraws a worker exactly when the share in it exceeds the balance
  (`Balances.DeleteProjectEffect`).
- The browser asks before an overpayment exactly when the server would refuse, unless the amount lies
  between the worker's whole balance and the one on the page (`PaymentForm.PromptAgreesExactly`). They are
  the same on the worker's own page (`PaymentForm.WorkerPageAgrees`), not on a project's
  (`PaymentForm.BalanceByProject`), where a payment can be refused unasked
  (`Scenarios.SettledWorkerAskedNothing`).
- A safety copy is intact at the end of a run exactly when the last copy written under its name has the
  same content (`BackupRuns.CopySurvivesExactly`). Two restores in one second lose the first content
  altogether exactly when neither brings it back and no other file holds it
  (`BackupRuns.SameSecondLosesContent`, `BackupRuns.SameSecondLosesCopy`).

Run `dafny verify dfyconfig.toml` to verify everything.

## Model

| member | source | states |
|---|---|---|
| Calendar.DateOfHasNumber | payroll/jalali.py:45-54 | walking day by day and counting by years and months agree, for every day of either calendar |
| Calendar.DayNumberOrder | payroll/jalali.py:71-79 | day numbers order valid dates exactly as year, month, day do, and identify them |
| Calendar.DateOfInverts | payroll/jalali.py:45-104 | the walk to a valid date's number ends at that date |
| Jalali.GregorianYearsClosed | payroll/jalali.py:50 | the closed form for days before a Gregorian year equals the year-by-year count, for all years |
| Jalali.JalaliYearsClosed | payroll/jalali.py:75 | the closed form for days before a Jalali year equals the count by the 33-year leap rule, for all years |
| Jalali.GregorianDayNo | payroll/jalali.py:45-53 | the counting steps give the day number of the naive count |
| Jalali.JalaliDayNo | payroll/jalali.py:71-78 | the counting steps and their loop give the day number of the naive count |
| Jalali.G2J | payroll/jalali.py:45-68 | gives the Jalali date that the calendar walk reaches, 79 days apart |
| Jalali.JalaliYearOfDay | payroll/jalali.py:54-61 | the nested cycles leave the year a day lies in and the day counted from its start |
| Jalali.J2G | payroll/jalali.py:71-104 | gives the Gregorian date that the calendar walk reaches, also for days past the end of a month; the month loop ends inside the year |
| Jalali.GregorianYearOfDay | payroll/jalali.py:80-97 | the nested cycles leave the year, the day in it, and a flag equal to the leap rule |
| Jalali.GregorianRoundTrip | payroll/jalali.py:45-104 | converting a valid Gregorian date and back is the identity, through a valid Jalali date |
| Jalali.JalaliRoundTrip | payroll/jalali.py:45-104 | converting a valid Jalali date and back is the identity, through a valid Gregorian date |
| Jalali.AcceptedRoundTrip | payroll/jalali.py:76-104 | an accepted date converts to a valid date and comes back rolled over, unchanged iff the day exists |
| Jalali.CountsFromMonthStart | payroll/jalali.py:76-78 | day d lies d-1 days after the first of its month |
| Jalali.ConversionKeepsOrder | payroll/jalali.py:71-104 | conversion is strictly order preserving on everything accepted, both ways |
| Jalali.ConversionKeepsNextDay | payroll/jalali.py:71-104 | the next Jalali day is the next Gregorian day |
| Jalali.PositiveYearsConvertLate | payroll/jalali.py:128-142 | accepted years convert to years after 620, so only the upper bound of `datetime.date` can be passed |
| Jalali.Nowruz1403 | payroll/jalali.py:79 | the two epochs are placed so that 1403/01/01 is 2024-03-20 |
| Jalali.LastDates | payroll/jalali.py:138-142 | the last day that `datetime.date` knows, 9999-12-31, is 9378/10/10 |
| Text.TranslatedBack | payroll/jalali.py:25-39 | a text with any of its digits in Persian or Arabic ones is translated back to it, and nothing else in it is touched |
| Text.PersianPrint | payroll/jalali.py:42-45 | printing in Persian digits turns each ASCII digit into the Persian one of its value and keeps all else |
| Text.StripOf | payroll/jalali.py:120 | stripping takes off exactly the blanks on both sides |
| Text.FloatReads | payroll/utils.py:19 | a numeral with or without sign, point and decimals, between any blanks, is read as its number |
| Text.ReadFloatIsNumeral | payroll/utils.py:19 | nothing else is read as a number |
| Text.StrLessMeans | payroll/blueprints/reports.py:40-48 | a text comes before another iff it ends first or has the smaller character where they first differ |
| DateText.JalaliTextReadsBack | payroll/jalali.py:117-130 | canonical date text is read back as the date it was written from |
| DateReading.DateIsRead | payroll/jalali.py:117-130 | three numbers of any width, in any of the three digit sets, with runs of slashes, hyphens, points and blanks between and around them, are read as that date, or as none if out of range |
| DateReading.ReadTextSpellsDate | payroll/jalali.py:117-130 | whatever is read as a date is spelled like that |
| DateReading.AnyDigitsReadBack | payroll/jalali.py:117-130 | canonical text is read back, and its ISO date derived, in Persian and Arabic digits too, even mixed |
| DateReading.PlaceholderIsRead | templates/projects/form.html:20-21 | at an input: the form's example is read in Persian and in Arabic digits |
| DateReading.JalaliLayout | payroll/jalali.py:130 | canonical text has ten characters, slashes at the fifth and eighth, and the three zero-padded numbers around them |
| DateReading.IsoLayout | payroll/jalali.py:142 | the same for ISO text, with hyphens |
| DateReading.IsoIsItsPrint | payroll/jalali.py:147-153 | a text is an ISO date iff it is the print of a valid date of the years 1..9999 |
| DateReading.ShownText | payroll/jalali.py:147-159 | what begins with an ISO date is shown as its Jalali date, any other text as it is |
| DateText.NormalizeIdempotent | payroll/jalali.py:117-130 | normalising canonical text changes nothing, nor does deriving the ISO date again |
| DateText.ParsedDate | payroll/jalali.py:171-176 | a readable text gives its canonical form and its ISO date, missing iff the year exceeds 9999 |
| DateText.IsoOrder | payroll/jalali.py:142 | for years 1..9999, character order of ISO text is calendar order |
| DateText.IsoComparesJalali | payroll/jalali.py:133-144 | comparing stored ISO dates compares the Jalali days that were typed |
| DateText.ShownDate | payroll/jalali.py:147-159 | the date shown for a stored ISO date is the typed one rolled over, equal to the stored text iff the day exists |
| DateText.IsoFormExactly | payroll/jalali.py:133-144 | an accepted day has an ISO form iff, rolled over, it is not after 9378/10/10 |
| DateText.ThirtyFirstOfMehr | payroll/jalali.py:147-159 | at an input: 1403/07/31 is stored as typed and shown as 1403/08/01 |
| DateText.DistantDay | payroll/jalali.py:133-144 | at an input: 9999/01/01 is read as a date and has no ISO form |
| Shares.ShareWithinLabor | payroll/utils.py:41-43 | a share lies between nothing and the labour amount, with both ends attained at 0 and 100 percent |
| Shares.ShareIsMonotone | payroll/utils.py:41-43 | a share grows with the labour amount and with the percent |
| Shares.EquivalentPercentInRange | payroll/utils.py:56-60 | the percent displayed for a fixed share within the labour amount is between 0 and 100 |
| Shares.EquivalentPercentIsNearest | payroll/utils.py:56-60 | it is nearest to the amount's part of the labour amount, and 0 without labour |
| Shares.SplitBound | payroll/utils.py:63-71 | the total of n rounded shares is within n/2 of the exact fraction |
| Shares.SplitOvershoot | payroll/utils.py:63-71 | percents adding up to at most 100 overshoot by at most half a unit a row |
| Shares.OvershootAttained | payroll/utils.py:63-71 | the bound is attained by two halves of 3 |
| Shares.AcceptedSplit | payroll/utils.py:63-71 | percents whose rounded shares fit into the labour amount exceed 100 percent by no more than rounding explains |
| ProjectForm.MixedSplitBound | payroll/blueprints/projects.py:181-187 | the rounded total of percent and fixed rows is within half a unit for each percent row of what the rows ask for exactly |
| ProjectForm.AcceptedFormSplit | payroll/blueprints/projects.py:188-189 | a form the server accepts, fixed rows included, asks for more than the labour amount by at most half a unit for each percent row |
| ProjectForm.ModestFormAccepted | payroll/blueprints/projects.py:188-201 | a readable form is accepted if what it asks for, plus half a unit for each percent row, stays below the labour amount plus one |
| ProjectForm.AcceptedExcessAttained | payroll/blueprints/projects.py:188-189 | for every n there is an accepted form with n percent rows that asks for n halves more than the labour amount |
| ProjectForm.ExactFormRefused | payroll/blueprints/projects.py:188-201 | two halves of 3 ask for exactly 3 and are refused; they meet the bound of acceptance with equality |
| ProjectForm.StoredHalvesAgree | payroll/blueprints/projects.py:181-187 | in every stored row the share is nearest to the percent's part of the labour amount, or the percent of a fixed row nearest to the share's part |
| ProjectForm.DraftHoldsForm | payroll/blueprints/projects.py:131-201 | an accepted form is stored as typed: name, both amounts, both dates, status, and one line per named worker in order with mode and percent or amount |
| ProjectForm.NamelessRowsIgnored | payroll/blueprints/projects.py:151-155 | rows with an unreadable worker id are skipped: they change neither verdict nor draft |
| ProjectForm.ModeMeans | payroll/utils.py:50-53 | the mode is fixed iff the posted code is fixed, blanks around it left out |
| ProjectForm.StatusCodes | payroll/utils.py:106-113 | the four codes stand for the four statuses, and no other text for any |
| MoneyText.MoneyReadsBack | payroll/utils.py:6-24 | every amount is read back from its grouped print, and a printed negative number is refused |
| MoneyText.PersianMoneyReadsBack | payroll/utils.py:90-92 | the same in Persian digits |
| MoneyText.PercentReadsBack | payroll/utils.py:95-103 | every percent of four decimals from 0 to 100 is read back from its print |
| MoneyText.PersianPercentReadsBack | templates/projects/detail.html:70 | the same in Persian digits, as the pages show percents |
| MoneyText.PercentPrintIsShort | payroll/utils.py:95-103 | a printed percent has a point iff it is not whole, and then no zero at its end |
| MoneyText.AmountReads | payroll/utils.py:6-24 | a numeral with commas of either kind and blanks anywhere in it, in any digits, is read as its rounded number, refused only if negative |
| MoneyText.AmountIsNumeral | payroll/utils.py:6-24 | nothing else is an amount |
| MoneyText.PercentReads | payroll/utils.py:27-38 | a numeral with percent signs of either kind in it, in any digits, is read as its number to four decimals, refused outside 0..100 |
| MoneyText.PercentIsNumeral | payroll/utils.py:27-38 | nothing else is a percent |
| ProjectForm.PercentRange | payroll/utils.py:27-38 | a percent the parser accepts is between 0 and 100 |
| MoneyText.ClientGroupsLikeServer | static/js/app.js:50 | the browser's regular expression groups digits as the server's format does |
| MoneyText.ClientShowsMoney | static/js/app.js:106-111 | for every integer, also negative, the browser shows what the server prints |
| MoneyText.FmtKeepsNumber | static/js/app.js:52-59 | the field formatter is idempotent and keeps the number typed |
| MoneyText.FieldReadsAsNumber | static/js/app.js:49-65 | what a field shows is read by the server as the number the browser computes with |
| MoneyText.NumeralDigits | payroll/utils.py:13-20 | the digits of a text the server reads as a number, Persian and Arabic ones included, spell that number |
| MoneyText.FieldKeepsAmount | static/js/app.js:49-56 | for any text the server reads the same from the formatted field iff the ASCII digits alone spell the rounded number of all digits, or the text is refused and has no ASCII digit |
| MoneyText.AsciiFieldKeepsAmount | static/js/app.js:49-56 | without Persian or Arabic digits: iff the text is refused and has no digit, or its number has no digit after the point or is zero |
| MoneyText.ForeignFieldKeepsAmount | static/js/app.js:49-56 | without ASCII digits: iff the server refuses the text |
| MoneyText.FieldChangesAmounts | payroll/utils.py:14-24 | at inputs: 12.5 is 12 to the server and 125 through the field; -5 is refused, and 5 through the field |
| MoneyText.PastedPersianIsWiped | static/js/app.js:49-56 | every amount as the pages print it, in Persian digits, is wiped by the formatter though the server alone would read it |
| MoneyText.FmtKeepsPrint | static/js/app.js:57-58 | a prefilled amount passes through the formatter unchanged when the page loads |
| Preview.Recalc | static/js/app.js:85-123 | the loop computes the sum of the checked rows' shares, the shop's rest, and a warning iff that rest is negative |
| Preview.PostedLines | payroll/blueprints/projects.py:147-187 | the server makes one line of each checked row, in order, for its worker and in its mode |
| PercentText.PercentsAgree | static/js/app.js:101 | for every text the server reads as a number, with any digits and decimals, the browser reads the same number iff the ASCII digits before the point spell the same whole number as all digits there and those after it the same fraction |
| PercentText.RestIsIgnored | static/js/app.js:101 | the browser reads the longest numeral a text starts with and ignores the rest |
| PercentText.AsciiPercentsAgree | static/js/app.js:101 | typed in ASCII digits, with any number of decimals, both read the same numeral |
| PercentText.ForeignPercentsAgree | static/js/app.js:101 | without ASCII digits the browser reads 0, so the two agree iff the number is 0 |
| PercentText.PastedPercentIsZero | payroll/utils.py:27-38 | every percent as the pages print it, in Persian digits, is itself to the server and 0 to the browser |
| Preview.AsciiPercentIsAlike | payroll/utils.py:38 | a percent typed in ASCII digits is the percent the server stores iff nothing but zeros follows its fourth decimal |
| Preview.FieldIsAlike | static/js/app.js:49-65 | what a money field shows is read alike iff it is not blank |
| Preview.PlainAmountIsAlike | static/js/app.js:49-65 | an amount of ASCII digits and commas is read alike, whether it went through the formatter or not |
| Preview.AlikeExactly | static/js/app.js:92-107 | the two shares of a row the server reads differ by exactly its tie, for every labour amount, iff both sides read the same number in it |
| Preview.CutPercentBound | payroll/utils.py:38-43 | where the server cuts decimals, the two shares differ by at most one and one more for every two million of labour |
| Preview.PreviewMatchesServer | static/js/app.js:85-107 | with rows read alike, the preview total exceeds the server's by exactly the number of rows on an exact half above an even number |
| Preview.WarningMeansRefusal | payroll/blueprints/projects.py:147-196 | where every row the server reads is read alike, it refuses the form iff it cannot read some checked row or the preview is over by more than its ties |
| Preview.NoWarningNoRefusal | static/js/app.js:113-122 | with every checked row read alike, a preview without a warning is accepted |
| Preview.TiesWarnWithoutRefusal | static/js/app.js:113-122 | two halves of 1 are warned about and accepted |
| Preview.PersianPercentsUnwarned | static/js/app.js:101-122 | at an input: two percents of 60 in Persian digits show 0 without a warning and are refused |
| ProjectForm.DraftIsSound | payroll/blueprints/projects.py:131-201 | what validation lets through keeps every rule: shares non-negative and within the labour amount, percents in range, each mode's equation, dates stable |
| LedgerInvariant.InsertLinesMeans | payroll/schema.sql:46-56 | the row inserts succeed iff every worker exists and none is named twice, and then store exactly the new rows |
| LedgerInvariant.SaveOutcome | payroll/blueprints/projects.py:198-228 | saving is refused iff the form has an error, and fails iff a worker is posted twice or is gone |
| LedgerInvariant.RefusalChangesNothing | payroll/blueprints/projects.py:198-201 | a refused or failed request leaves every table as it was |
| LedgerInvariant.CreateProjectKeeps | payroll/blueprints/projects.py:203-227 | saving a new project keeps the invariant |
| LedgerInvariant.EditProjectKeeps | payroll/blueprints/projects.py:213-227 | replacing a project's rows keeps the invariant |
| LedgerInvariant.DeleteProjectKeeps | payroll/schema.sql:53-70 | cascades and SET NULL leave no dangling reference and no broken split |
| LedgerInvariant.DeleteWorkerKeeps | payroll/blueprints/workers.py:70-87 | deleting an unused worker keeps the invariant |
| LedgerInvariant.AddPaymentKeeps | payroll/schema.sql:59-71 | inserting a positive payment keeps the invariant |
| LedgerInvariant.EditPaymentKeeps | payroll/blueprints/payments.py:83-110 | editing a payment keeps the invariant |
| LedgerInvariant.StepKeeps | payroll/schema.sql:18-97 | every request keeps the invariant |
| LedgerInvariant.ReachableLedgersAreGood | payroll/blueprints/projects.py:147-228 | every ledger reachable from the empty one has unique pairs, resolved keys, sound splits within the labour amount, and positive payments, expenses and receipts |
| Balances.UnconfirmedNeverOverpays | payroll/blueprints/payments.py:44-60 | without a confirmation no request, an edit included, raises what a worker was paid above what was earned |
| Balances.OverpaysExactly | payroll/blueprints/payments.py:44-60 | a request pays some worker more than before and more than earned iff it is a confirmed payment above the balance, or a confirmed raise above what the balance would be without the edited payment |
| Balances.CarefulExactly | payroll/blueprints/payments.py:94-109 | from balances none of which is negative a request leads to such balances iff it is no confirmed overpayment and no worker's share falls by more than is owed, both told from the tables and the form beforehand |
| Balances.CarefulRunsNeverOverdraw | payroll/blueprints/payments.py:94-109 | no balance is negative at any point of a run iff every request of it meets that condition |
| Balances.EarningsAfter | payroll/blueprints/projects.py:213-227 | deleting a project, or editing an existing one with a valid form that can be stored, shifts each worker's earnings by exactly the new share minus the old; nothing else lowers them |
| Balances.LoweredExactly | payroll/blueprints/projects.py:213-227 | a request lowers a worker's earnings iff it deletes a project with a share of that worker, or stores a smaller one, both told beforehand |
| Balances.SettleAllSettles | payroll/blueprints/settlement.py:58-78 | settling is accepted iff something is owed; it enters one payment of the whole balance on no project, zeroes that balance only, and is then refused |
| Balances.DeleteProjectEffect | payroll/blueprints/projects.py:369-376 | balances fall by exactly the share in the project, negative iff it exceeded the balance; payments stay |
| Balances.DeleteProjectScope | payroll/schema.sql:53-96 | exactly the project's shares, expenses and receipts go |
| Balances.DeleteProjectPayments | payroll/schema.sql:70 | payment by payment: those on the project stay without one, all others as they were; what any other project was paid is unchanged, and payments on no project grow by exactly what was on it |
| Balances.DeleteProjectPages | payroll/queries.py:31-69 | every other project's page shows what it showed before |
| Balances.DeleteWorkerEffect | payroll/blueprints/workers.py:70-87 | a worker can be deleted iff no share row names the worker, and then only the worker's payments go |
| Balances.EditProjectEffect | payroll/blueprints/projects.py:213-227 | an edit changes each balance by the new share minus the old one |
| Effects.PaymentEffect | payroll/blueprints/payments.py:22-63 | exactly when a payment is accepted, and the row it enters; it moves one worker's balance and one project's payments by the posted amount, and nothing else |
| Effects.FailsExactly | payroll/blueprints/payments.py:22-63 | a request ends in an exception iff its rows cannot be stored, or it passes every guard and names a worker or project that does not exist |
| Effects.ExpenseEffect | payroll/blueprints/expenses.py:15-46 | exactly when an expense is accepted, and the row it enters; it moves expenses and shop's rest of its project's page by the posted amount, and no other figure of any page |
| Effects.ReceiptEffect | payroll/blueprints/customer.py:15-45 | exactly when a receipt is accepted, and the row it enters; it moves what was received and is owed on its project's page by the posted amount, and no other figure of any page |
| Effects.PaymentOnPage | payroll/queries.py:49-52 | a payment raises what the workers were paid on its project's page only, and no other figure |
| Effects.ExpenseCategories | payroll/utils.py:137-144 | exactly the six codes are categories |
| Effects.CreateWorkerEffect | payroll/blueprints/workers.py:24-43 | a worker is entered iff name and percent are good, under a new id with what was typed, an empty percent meaning 0 |
| Effects.EditWorkerEffect | payroll/blueprints/workers.py:46-67 | an edit is accepted iff the worker exists and the form is good, and rewrites that row only |
| Effects.CreateProjectEffect | payroll/blueprints/projects.py:203-227 | a created project is appended as posted, with its rows; every other page is unchanged |
| Effects.NewProjectPage | payroll/queries.py:31-69 | its own page shows the posted amounts, the total of its rows, and nothing paid, spent or received |
| Effects.EditProjectScope | payroll/blueprints/projects.py:213-227 | an edit rewrites that project's row and share rows as posted; every other row, table and page is unchanged |
| Effects.EditPaymentAccepted | payroll/blueprints/payments.py:66-103 | an edit is accepted iff the payment exists and the amount is positive and covered by the balance without the edited payment, or confirmed |
| Effects.EditPaymentEffect | payroll/blueprints/payments.py:83-112 | an edit moves its worker's balance by the old amount minus the new one and leaves other payments |
| Effects.SetStatusEffect | payroll/blueprints/projects.py:357-366 | only a known code is stored, and only one project's status changes |
| Effects.DeletePaymentEffect | payroll/blueprints/payments.py:117-124 | deleting a payment takes out that row alone and gives its amount back to its worker's balance only |
| Effects.DeleteExpenseEffect | payroll/blueprints/expenses.py:49-59 | deleting an expense takes out that row alone and gives its amount back to what the shop keeps of its project only |
| Effects.DeleteReceiptEffect | payroll/blueprints/customer.py:48-58 | deleting a receipt takes out that row alone and raises what its project's customer owes only, by its amount |
| Effects.DeleteUndoesPayment | payroll/blueprints/payments.py:117-124 | deleting a payment just entered restores every table |
| Effects.DeleteUndoesExpense | payroll/blueprints/expenses.py:49-59 | deleting an expense just entered restores every table |
| Effects.DeleteUndoesReceipt | payroll/blueprints/customer.py:48-58 | deleting a receipt just entered restores every table |
| Effects.DeleteUndoesProject | payroll/blueprints/projects.py:369-376 | deleting a project just saved restores every table, shares included |
| RefusedForm.ShownFieldReads | payroll/utils.py:72-87 | a money field shown again is blank iff it was left empty, else it is the rounded number without its sign, 0 for what is no number |
| RefusedForm.ShownReads | payroll/utils.py:72-87 | a numeral with commas of either kind, in any digits, is printed as its rounded number with its sign |
| RefusedForm.NumeralIsShown | payroll/utils.py:79-87 | the printing function reads an amount the server read iff no blank is inside |
| RefusedForm.ReadAmountIsShown | payroll/utils.py:72-87 | an amount the server read comes back as itself iff it is 0 or no blank is inside |
| RefusedForm.ShownFormRefused | payroll/blueprints/projects.py:233-270 | the form shown again is refused iff the name is blank, the labour field was empty, a listed fixed share is unreadable or 0, or the shares exceed the labour amount shown; all in terms of what was posted |
| RefusedForm.CleanFormKeepsVerdict | payroll/blueprints/projects.py:233-270 | a form with everything readable and its workers listed once gets the same verdict again |
| RefusedForm.ShownFormDraft | payroll/blueprints/projects.py:233-270 | if the form shown again is accepted, it stores name, status and date as first posted, the amounts as shown, and the listed rows in the list's order |
| RefusedForm.WordBecomesZero | payroll/blueprints/projects.py:233-270 | at an input: refused for the labour amount abc, then accepted with 0 |
| RefusedForm.TooMuchBecomesNothing | payroll/blueprints/projects.py:233-250 | at an input: refused for a percent of 150, then accepted with 0 |
| RefusedForm.BlankInsideIsLost | payroll/utils.py:72-87 | at an input: an amount typed with a blank between its digits is read, and shown again as 0 |
| PaymentForm.BalanceByProject | payroll/queries.py:7-28 | a worker's balance is the sum of the balances on the project pages less the payments on no project |
| PaymentForm.PromptAgreesExactly | static/js/app.js:29-45 | the browser asks iff the server would refuse unconfirmed, unless the amount lies between the worker's balance and the one on the page |
| PaymentForm.SubmissionVerdict | static/js/app.js:29-45 | what is submitted is refused iff the amount exceeds the worker's balance but not the one on the page, else accepted; it overpays iff it exceeds both and the user said yes |
| PaymentForm.SubmittedIsBooked | templates/projects/detail.html:75-79 | what is accepted is booked for that worker and the page's project, and the page shows that much less |
| PaymentForm.WorkerPageAgrees | templates/settlement/detail.html:20 | on the worker's page everything submitted is accepted, and a confirmation is asked for iff it is needed |
| PaymentForm.NothingIsRefused | payroll/blueprints/payments.py:39-41 | a field holding nothing or 0 is refused, asked about or not |
| Scenarios.AdvanceOverdraws | payroll/blueprints/payments.py:44-60 | at an input: a confirmed payment of 5 to a new worker leaves the balance at -5 |
| Scenarios.DeletionOverdraws | payroll/blueprints/projects.py:369-376 | at an input: without any confirmation, settling a worker and deleting the project leaves the balance at -5 |
| Scenarios.SettledWorkerAskedNothing | templates/projects/detail.html:75-86 | at an input: after settling, the project page still shows 5; 5 is posted unasked and refused |
| Scenarios.DistantBoundSelectsAll | payroll/blueprints/reports.py:29-48 | at an input: a report from 9999/01/01 selects every project |
| Queries.WorkerTotalsAgree | payroll/queries.py:7-18 | worker totals add up to the dashboard's shares, payments and debt |
| Queries.ProjectTotalsAgree | payroll/queries.py:31-69 | project figures add up to the dashboard's labour, shares, expenses, receipts and receivable |
| Queries.CustomerStatusMeans | payroll/utils.py:159-165 | the status is not received iff there is no receipt, partial iff some and the customer still owes, received otherwise |
| Queries.DashboardConserves | payroll/queries.py:72-109 | debt, shop balance and customer receivable are the sums of the single views |
| Queries.DashboardConservesOverRuns | payroll/queries.py:72-109 | the same after every run of requests |
| Queries.PaidByProject | payroll/queries.py:49-52 | what project pages show as paid plus payments on no project is everything paid |
| Queries.JoinHasNoFanOut | payroll/queries.py:112-131 | the join with two grouped tables gives each worker once, with the two independent sums, missing groups as zero |
| Queries.FiltersMatchStatus | payroll/blueprints/projects.py:46-51 | the list filters agree with the customer status and balance, apart only over a total of zero |
| Tables.GroupSumsMeans | payroll/queries.py:120-123 | grouping gives one group per occurring key with the filtered sum |
| Tables.SumExchange | payroll/queries.py:79-84 | summing per key over all keys counts every row once |
| Reports.ShopProfitAgrees | payroll/blueprints/reports.py:123-145 | for any range the profit and income reports are the sums of the project pages' figures |
| Reports.UnboundedReportIsDashboard | payroll/blueprints/reports.py:75-90 | without bounds the reports meet the dashboard |
| Reports.WorkersShareByWorker | payroll/blueprints/reports.py:92-104 | the report has one row for each worker with a share on a project in range, with the sum of those shares, and no other row |
| Reports.WorkersShareAgrees | payroll/blueprints/reports.py:92-104 | its rows add up to the share sum of the income reports |
| Reports.ReportsAddUp | payroll/blueprints/reports.py:40-48 | profit, income, labour, shares, expenses and the workers' shares each add up over a range cut at any day; an unbounded one has the undated projects on top |
| Reports.RangeSelectsJalaliDays | payroll/blueprints/reports.py:29-48 | for any two typed bounds and any project: it is selected iff for each bound that is readable and converts to a year up to 9999 it is dated and its Jalali day lies on the right side |
| Reports.ProjectsReport | payroll/blueprints/reports.py:50-73 | the loop's lines are labour, shares and shop's part of each project's page; its sums are theirs, the shop's the income report's |
| Reports.WorkerDebtReport | payroll/blueprints/reports.py:106-121 | the loop gives each worker's two sums and the total of the positive balances |
| Reports.DebtReportAgainstDashboard | payroll/blueprints/reports.py:106-121 | that total is at least the dashboard's debt, equal iff nobody is overpaid |
| Reports.CustomerUnpaidReport | payroll/blueprints/reports.py:173-193 | the loop lists exactly the unpaid projects and sums what they owe |
| Reports.UnpaidReportAgainstDashboard | payroll/blueprints/reports.py:173-193 | that sum is at least the dashboard's receivable, equal iff no customer overpaid |
| Reports.WorkersWithBalances | payroll/queries.py:112-135 | the joined and filtered rows are each worker, active and owed if so asked, with the two sums and the balance |
| EditForm.PrefilledDraft | payroll/blueprints/projects.py:84-128 | the prefilled form validates to the stored project, unless something prints as blank |
| EditForm.RowReads | templates/projects/form.html:84-92 | a stored row is read back from its fields unless it is a fixed share of nothing |
| EditForm.RowsStoredAgain | payroll/blueprints/projects.py:220-227 | deleting and inserting the same rows in any order restores the share table |
| EditForm.UntouchedFormChangesNothing | templates/projects/form.html:22-92 | posting an untouched form leaves the ledger the same iff labour amount, customer total and every fixed share are positive |
| EditForm.UntouchedFormChangesTotal | payroll/blueprints/projects.py:141-143 | the failing side at an input: a ledger reached by one form with customer total 0, whose untouched edit form makes the customer owe the labour amount |
| LedgerStore.Store.ChooseWorkers | payroll/blueprints/projects.py:147-171 | the reading loop chooses the readable rows in order and notes an error iff one is unreadable |
| LedgerStore.Store.FillRows | payroll/blueprints/projects.py:181-188 | the in-place loop completes every row and returns the total share |
| LedgerStore.Store.InsertRows | payroll/blueprints/projects.py:222-227 | the insert loop stores the rows or stops at the first violated constraint |
| LedgerStore.Store.WriteProject | payroll/blueprints/projects.py:203-228 | the inserts and updates store the project and all its rows, or roll back when a constraint is violated |
| LedgerStore.Store.SaveProject | payroll/blueprints/projects.py:131-230 | the request makes its ledger step and keeps the invariant |
| LedgerStore.Store.EditProject | payroll/blueprints/projects.py:84-93 | an unknown project is refused, a known one saved, as the ledger step says |
| LedgerStore.Store.SetStatus | payroll/blueprints/projects.py:357-366 | keeps the invariant; accepted iff the code is known; then the project has that status, and no other project and no other table changes |
| LedgerStore.Store.CreateWorker | payroll/blueprints/workers.py:24-43 | the form check and the insert make the ledger step |
| LedgerStore.Store.EditWorker | payroll/blueprints/workers.py:46-67 | the form check and the update make the ledger step |
| LedgerStore.Store.DeleteWorker | payroll/blueprints/workers.py:70-87 | the counted guard and the cascade make the ledger step |
| LedgerStore.Store.DeleteProject | payroll/blueprints/projects.py:369-376 | keeps the invariant; exactly the project and its shares, expenses and receipts go; its payments lose their project, all others and all other pages stay, and each balance falls by the share in it |
| LedgerStore.Store.CreatePayment | payroll/blueprints/payments.py:22-63 | the guards and the insert make the ledger step |
| LedgerStore.Store.EditPayment | payroll/blueprints/payments.py:66-112 | the guard without the edited payment and the update make the ledger step |
| LedgerStore.Store.DeletePayment | payroll/blueprints/payments.py:117-124 | keeps the invariant; exactly that payment goes, and its worker's balance alone rises by its amount |
| LedgerStore.Store.InsertPayment | payroll/schema.sql:59-71 | keeps the invariant; accepted iff worker and project exist; then one payment under an id no other has, lowering that worker's balance alone; otherwise nothing changes |
| LedgerStore.Store.SettleAll | payroll/blueprints/settlement.py:58-78 | one payment of the whole balance makes the ledger step |
| LedgerStore.Store.CreateExpense | payroll/blueprints/expenses.py:15-46 | the guards and the insert make the ledger step |
| LedgerStore.Store.DeleteExpense | payroll/blueprints/expenses.py:49-59 | keeps the invariant; exactly that expense goes, and what the shop keeps of its project alone rises by its amount |
| LedgerStore.Store.CreateReceipt | payroll/blueprints/customer.py:15-45 | the guards and the insert make the ledger step |
| LedgerStore.Store.DeleteReceipt | payroll/blueprints/customer.py:48-58 | keeps the invariant; exactly that receipt goes, and its project's customer alone owes its amount more |
| BackupNames.NameOrder | payroll/db.py:204-206 | under one prefix, name order is time order |
| BackupNames.NameTellsStamp | payroll/db.py:204-206 | equal names carry equal stamps, whatever the prefixes |
| BackupNames.NameLayout | payroll/db.py:296 | at an input: the name of an automatic backup, character by character |
| Backups.PruneKeepsNewest | payroll/db.py:312-326 | every deleted file comes before every matching survivor in name order, and survivors are unchanged |
| Backups.PruneKeepsLatest | payroll/db.py:312-326 | every deleted stamped backup is earlier in time than every stamped survivor |
| Backups.PruneLeavesOthers | payroll/db.py:312-326 | a file without the prefix or without the ending .db is never pruned, and without a limit none is |
| Backups.PruneCount | payroll/db.py:312-326 | exactly min(keep, count) matching files survive |
| Backups.PruneIdempotent | payroll/db.py:312-326 | pruning twice is pruning once |
| Backups.NewestSurvives | payroll/db.py:312-326 | a file with no newer one of its prefix is never pruned |
| BackupRuns.StartupImports | payroll/db.py:151-183 | start-up leaves a populated target alone and imports into any other iff a candidate holds data |
| BackupRuns.ImportInRows | payroll/db.py:124-183 | in rows: a target with a worker, a project or a payment stays; any other is copied away and replaced by the first candidate with such a row, if there is one |
| BackupRuns.RestoreInRows | payroll/db.py:218-255 | in rows: no unreadable source is restored, and none without rows over a target with some unless allowed; all else is, the target being copied away and every other file kept |
| BackupRuns.StartupKeepsCounts | payroll/__init__.py:39-44 | creating tables and migrating neither add nor lose a worker, a project or a payment |
| BackupRuns.DisabledStartupPrunesNothing | payroll/db.py:329-339 | switched off, start-up leaves the folder alone, but for the copy of what an import replaces |
| BackupRuns.RealDataIsRows | payroll/db.py:124-129 | one worker, project or payment is real data, and nothing else is |
| BackupRuns.RunsKeepData | payroll/db.py:124-255 | over any run without allow_empty, whose uses in between keep a row, a database with a worker, a project or a payment never loses its last one |
| BackupRuns.RestoreBringsBack | payroll/db.py:218-255 | a restore brings back the chosen content unless its safety copy overwrites that very file |
| BackupRuns.CopySurvivesExactly | payroll/db.py:170-173 | over any run, what an import or a restore replaced is under its safety copy's name at the end iff the last safety copy written under that name has the same content |
| BackupRuns.RunsLoseNothing | payroll/db.py:170-173 | over any run it is still there if no later import or restore that replaces something falls into its second |
| BackupRuns.StepKeepsFile | payroll/db.py:312-326 | a file that is no automatic backup survives every event that writes no safety copy under its very name |
| BackupRuns.SecondRestoreOverwrites | payroll/db.py:198-215 | two restores: the first safety copy is intact iff the seconds differ or the content was the same |
| BackupRuns.SameSecondLosesContent | payroll/db.py:198-255 | two restores in one second lose the content the first replaced iff neither brings it back, the first not from its own copy either, and no other file of the folder holds it |
| BackupRuns.SameSecondLosesCopy | payroll/db.py:198-215 | at an input: two restores of other files in any one second after which the first content is nowhere on the disk |
| BackupRuns.BackupIsCurrent | payroll/db.py:289-309 | a backup holds the present content iff its name was unused or held the same |
| BackupRuns.CurrentBackupSurvives | payroll/db.py:329-339 | with a forward clock, keep at least 1 and any folder without backups from the future, the current start-up's backup is there and holds this start-up's database, or the earlier file of that second |
| BackupStore.Store.Bootstrap | payroll/db.py:151-183 | the candidate loop imports, after a safety copy, the first candidate with a worker, a project or a payment, iff the target has none |
| BackupStore.Store.Restore | payroll/db.py:218-255 | the guarded restore makes its step, and succeeds iff the source is readable and has rows, or the target has none, or emptiness is allowed |
| BackupStore.Store.CreateBackup | payroll/db.py:289-309 | every existing file is left alone, a target whose name is unused is held under it, and nothing else appears |
| BackupStore.Store.WriteBackup | payroll/db.py:198-215 | a target is in the folder under the stamped name afterwards, whatever was there; every other file stays as it was and no other appears |
| BackupStore.Store.Prune | payroll/db.py:312-326 | sorting and removing in a loop deletes exactly the names with keep or more newer ones |
| BackupStore.Store.AutoBackup | payroll/db.py:329-339 | backs up and prunes unless switched off |
| BackupStore.Store.Startup | payroll/__init__.py:39-44 | import, table creation, automatic backup and migration make the start-up event |

## Left out

- Floating point: exact arithmetic is assumed for amounts and percents; how far the program's doubles agree with it is not part of this model. Overflow of SQLite integers is not modelled.
- Extras of Python's `int` and `float`: underscores, exponents, nan, inf and digits other than ASCII, Persian and Arabic; texts are plain decimal numerals with an optional sign.
- The `jdatetime` branch of payroll/jalali.py; the library is not a requirement, so the pure Python path is the one modelled.
- Free text (customer, address, notes, methods of payment), the dates of payments, expenses and receipts, and row ids of project_workers, which no figure depends on.
- The order of listings by name or date, their name and count columns, and the LIKE search.
- Spellings other than YYYY-MM-DD that newer versions of `fromisoformat` accept; the program stores none.
- The reports "worker_performance" and "unsettled", which repeat the sums of the other reports row by row.
- Corrupt database files, SQLite's backup API, journals and operating system errors: a file is its counts and the rest of its content.
- Reading the clock twice within one start-up: the import's and the automatic backup's stamps are taken as one.
- Years before 1000 in backup stamps, which `strftime` does not pad everywhere.
- The browser's own checks before posting: `required` fields and the number keyboard; a form is taken as posted whatever it holds.
- Interleaving of requests: each request is one atomic step.
- Login, users, settings, the demo data, the additive schema migration, exports and page layout.
- Jalali.G2J: asks for a valid Gregorian date, which every caller's `datetime.date` is.
- Jalali.J2G: asks for a month in 1..12, which `normalize_jalali` has checked; the day may be any integer.
