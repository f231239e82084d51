# meta-classificador: welfare-registry pipeline in Dafny

This project models the data path of meta-classificador. The path starts with
raw Brazilian welfare-registry extracts:

- CadÚnico family files;
- CadÚnico person files;
- Bolsa Família payment files.

From these it builds a household table. On that table it derives five 0/1
vulnerability flags and a per-capita income. It then computes a weighted
vulnerability score and bins the score into four tiers: Baixa, Média, Alta and
Muito Alta. Finally it projects the table onto the feature vector and target
that the classifiers are trained on. The report that counts the classifiers'
predicted tiers over a batch of analyses is modelled too.

## Tables

A table is a `Frames.Frame`: column names plus positional rows. A cell is an
`Option<Value>`, where `None` is pandas' NaN/None and `Value` is an integer, a
real or a text. `Frames.At` reads a cell by column name. A column that is
absent reads as `None`.

Each pandas failure becomes an `Err` of a `Result`, never a precondition:

- a `KeyError` on a missing column;
- a `TypeError` on `&` over non-integers.

## Modules

Each module follows one source file or concern:

- `Features`, `Normalisation`, `Levels`, `Derivation`, `Missing`,
  `Consolidation` and `Training` model `src/preprocessamento.py`.
  - The guarded derivation: each derived column is computed only when absent,
    and the whole function returns at once when the tier column exists.
  - The z-score, which is built on the sample standard deviation.
  - The right-closed four-bin cut.
  - The four missing-value strategies.
  - The payment merge.
  - The ML projection.
- `GovMapper` models `src/mapeador_governo.py`.
  - Header classification.
  - The detection loop over six reader configurations.
  - The family, person and payment mappers.
  - The dispatch and the family/person merge.
- `RealData` and `RealFeatures` model `src/adaptar_dados_reais.py`.
  - The code recodings.
  - The reference-person aggregation and the inner join.
  - The post-join defaults.
  - The unguarded copy of the feature derivation.
- `GovConverter` and `GovMerge` model `src/conversor_dados_governo.py`.
  - `GovConverter`: quote stripping, numeric coercion and the family-only conversion.
  - `GovMerge`: the left join with reference persons selected by the text code `'1'`,
    and the final row filter.
- `Report` models the consolidated report and the level-name lookup of
  `src/meta_classificador_llm.py`.
- `Frames`, `Joins`, `Seqs`, `Stats`, `Bits` and `Wrappers` are shared support.
  - pandas `merge` (inner and left, with suffixes).
  - Python's bitwise `&` on integers.
  - Mean, sample variance and median.

## How the three mappers differ

The three government mappers disagree with each other, and each is modelled as
written:

| Field | `GovMapper` | `RealData` | `GovConverter` |
|---|---|---|---|
| Sewage | codes 1 and 2 | code 1 only | code 1 only |
| Disability | — | any code other than 1 | a code above 0 |
| Work code 1 | 2 | 1 | raw code |
| Schooling default | 2 | 0 (missing or unknown code) | 1 |
| Sex default | F in the family mapper; a missing code is filled with M in the person mapper | — | F |

## Parameters

The model takes these as parameters instead of computing them:

- the square root behind `std`: `sqrt`, constrained by `Stats.IsSqrt`;
- `pd.to_numeric` on text: `parse`, constrained by `GovConverter.ParsesNaN`;
- `str` of a float: `repr`;
- the reader behind format detection: `read`, giving a header or `None` per
  configuration;
- the loader: `load`;
- the normaliser: `norm`, any length-preserving column map, when steps are
  studied one at a time.

## Behaviour the model reproduces literally

- The derivation does not clamp a zero household size.
- An unknown missing-value strategy returns the table unchanged.
- Detection returns the first configuration that reads, even for an
  unrecognised header.
- Several reference persons for one family duplicate the family row.
- `Missing.Mode` orders a mixed column as pandas' sort does: numbers by value, and numbers before texts.
- A batch with fewer than two incomes, or with constant incomes, gives NaN
  scores and no tier.
- In the converter, a kinship column that pandas read as numbers never equals
  the text `'1'`.
  - No family then finds its reference person.
  - Every row keeps the placeholder person: `GovMerge.NumericKinshipMatchesNobody`.
  - Quote stripping only touches text columns, so a numeric sex code reads as
    `F`: `GovMerge.SexCodesAsText`.

## Model

| member | source | states |
|---|---|---|
| `Features.PerCapitaCell` | src/preprocessamento.py:205-207 | Per-capita income is defined exactly when income and size are numbers and the size is non-zero. Multiplied by the size, it gives the income back. A zero size is not clamped. |
| `Features.PerCapitaExample` | tests/test_preprocessamento.py:132-151 | An income of 1000 for 4 people gives 250 per person. |
| `Features.FlagCell` | src/preprocessamento.py:211-234 | A flag is always 0 or 1. It is 1 exactly when the cell holds a number that passes the test, so a NaN gives 0, as pandas comparisons do. |
| `Bits.AndNatBits` | src/preprocessamento.py:217-219 | Bit k of `a & b` is set exactly when bit k is set in both operands. |
| `Bits.BitAndFlags` | src/preprocessamento.py:217-219 | On 0/1 operands, Python's `&` is 1 exactly when both are 1. |
| `Bits.BitAndCommutes` | src/preprocessamento.py:217-219 | `a & b == b & a` for all integers, negative ones included. |
| `Features.AndCellOnFlags` | src/preprocessamento.py:217-219 | Infrastructure is adequate (1) exactly when both water and sewage are 1. |
| `Features.WeightedScoreMonotone` | src/preprocessamento.py:247-269 | The score falls as normalised income or infrastructure rises. It rises with each risk flag: age, low schooling, precarious work, overcrowding, disability. |
| `Features.ScoreExample` | src/preprocessamento.py:247-277 | With z = −1 and the age, schooling and work flags set, the score is 0.85 and the tier is Muito Alta. |
| `Features.ScoreCell` | src/preprocessamento.py:261-269 | A row's score is NaN exactly when one of its seven terms is NaN; otherwise it is a real. |
| `Features.ActiveNis` | src/preprocessamento.py:238-239 | The active beneficiaries are exactly the NIS values of payment rows whose status is `ativo`. |
| `Features.AddPerCapita` | src/preprocessamento.py:205-207 | The input comes back unchanged when the column exists. Otherwise the call fails exactly when income or size is missing or non-numeric, and adds one column holding each row's quotient. |
| `Features.AddFlag` | src/preprocessamento.py:211-234 | An existing flag column is kept. Otherwise the call fails with a missing-column or type error on the source column, and adds one 0/1 column. Every other column is untouched. |
| `Features.AddInfra` | src/preprocessamento.py:217-219 | An existing column is kept. Otherwise water and sewage must be integer columns, and the new column is their bitwise and. |
| `Features.AddBolsaFlag` | src/preprocessamento.py:237-243 | With no payment table the flag is 0 everywhere. With one, each household is flagged exactly when its NIS is an active beneficiary. An existing column is kept. |
| `Features.FlagPayments` | src/preprocessamento.py:238-241 | Appends one column that marks each row 1 exactly when its NIS appears on an active payment row. Every other column is kept. |
| `Features.AddScore` | src/preprocessamento.py:246-269 | When the score is absent and the seven inputs are numeric, adds the normalised income and each row's weighted score. It fails exactly when an input is missing or not numeric. |
| `Features.AddTier` | src/preprocessamento.py:272-277 | Adds the tier of each row's score; an existing tier column is kept. |
| `Normalisation.ZScoresMeaning` | src/preprocessamento.py:258-259 | A z-score is defined exactly when the income is present and the batch has spread. Z-scores keep the order of the incomes. |
| `Normalisation.ZScoresCentred` | src/preprocessamento.py:258-259 | The defined z-scores of a batch with spread sum to zero. |
| `Normalisation.ZeroSpreadIsZeroOverZero` | src/preprocessamento.py:258-259 | When the standard deviation is 0, every income equals the mean, so each z-score is 0/0 (NaN), not ±inf. |
| `Stats.VarianceZeroIffConstant` | src/preprocessamento.py:258-259 | The sample variance is 0 exactly when all values are equal. |
| `Stats.MeanBetween` | src/preprocessamento.py:169-171 | The mean lies between the smallest and the largest value. |
| `Stats.Median` | src/preprocessamento.py:166-168 | At most half of the values lie strictly below the median and at most half strictly above it. It is the mean of the lower middle value (fewer than half below it, at most half above) and the upper middle value (fewer than half above it, at most half below); for an odd count both are the middle value. |
| `Stats.MedianPinned` | src/preprocessamento.py:166-168 | The lower and the upper middle value are each unique, so the median is fixed: whatever two values have those ranks, the median is their mean. |
| `Stats.MedianOfFour` | src/preprocessamento.py:166-168 | The median of 1, 2, 3, 4 is 2.5, the mean of the two middle values, and neither of them. |
| `Stats.CountPermutation` | src/preprocessamento.py:166-168 | How many values lie above or below a bound does not depend on their order, so the sorted copy the median is read from counts the same. |
| `Levels.TierIntervals` | src/preprocessamento.py:272-277 | The bins are (−∞, −0.5] Baixa, (−0.5, 0] Média, (0, 0.5] Alta and (0.5, ∞) Muito Alta, each in both directions. |
| `Levels.TierMonotone` | src/preprocessamento.py:272-277 | A higher score never gets a lower tier. |
| `Levels.TierCell` | src/preprocessamento.py:272-277 | The tier is missing exactly when the score is NaN; otherwise it is one of the four labels. |
| `Derivation.Apply` | src/preprocessamento.py:200-277 | One derivation step leaves a table that already has its output column unchanged. Otherwise it adds only that step's columns, keeps every other cell, and defines the new column as the step says. |
| `Derivation.Derive` | src/preprocessamento.py:197-282 | A table that already has the tier comes back unchanged. Otherwise every derived column is present, every input cell is kept except the normalised income, and each column that was absent is defined by its step. |
| `Derivation.DeriveColumns` | src/preprocessamento.py:205-277 | Each derived column that was absent holds the per-capita quotient, its flag test, the bitwise and, the payment flag, the z-score of per-capita income, the weighted score or the tier of that score. |
| `Derivation.DeriveIdempotent` | src/preprocessamento.py:200-202 | Deriving again, with any payment table, returns the derived table unchanged. |
| `Missing.ModeUnique` | src/preprocessamento.py:172-176 | The mode chosen (most frequent, smallest first) is unique up to numeric equality. |
| `Missing.MedianFill` | src/preprocessamento.py:166-168 | The fill value exists exactly when the column has a number. It is the median of the column's numbers: the mean of their lower and upper middle values, so at most half lie below it and at most half above, and it lies between the smallest and the largest. |
| `Missing.MeanFill` | src/preprocessamento.py:169-171 | The fill value exists exactly when the column has a number, and lies between its smallest and largest number. |
| `Missing.ModeFill` | src/preprocessamento.py:172-176 | The fill value is a mode of the present values, or 0 when the column has none. |
| `Missing.FillMedian` | src/preprocessamento.py:166-168 | Only NaN cells of numeric columns change, and each gets its column's median. |
| `Missing.FillMean` | src/preprocessamento.py:169-171 | Only NaN cells of numeric columns change, and each gets its column's mean. |
| `Missing.FillMode` | src/preprocessamento.py:172-176 | Every NaN cell, in any column, gets its column's mode; afterwards no cell is NaN. |
| `Missing.DropNa` | src/preprocessamento.py:177-178 | Keeps exactly the complete rows, in order. The rows kept plus the rows dropped make up the input. |
| `Missing.Treat` | src/preprocessamento.py:164-181 | `remover` keeps the complete rows. The fills keep every present cell. `moda` leaves no NaN. An unknown strategy returns the table unchanged, with no error. |
| `Missing.TreatFillsNumeric` | src/preprocessamento.py:166-171 | After `mediana` or `media`, no NaN is left in a numeric column that had a value. |
| `Missing.TreatKeepsEmptyNumeric` | src/preprocessamento.py:166-171 | A numeric column with no value at all stays all-NaN. |
| `Missing.DropOneRow` | src/preprocessamento.py:177-178 | When exactly one row has a NaN, `remover` removes that row and nothing else. |
| `Missing.RemoverExample` | tests/test_preprocessamento.py:91-98 | Five rows with one NaN give four rows. |
| `Missing.NumericColumns` | src/preprocessamento.py:167 | The numeric columns are exactly the present columns whose cells are all numbers or NaN, without repeats. |
| `Joins.Merge` | src/mapeador_governo.py:262-268 | A merge fails on a missing key. It also fails on any clash of output names, which is stricter than pandas (see Left out). Its rows are each left row repeated once per matching right row; for a left join, an unmatched row appears once, padded with NaN. |
| `Joins.LeftTotalCovers` | src/mapeador_governo.py:262-268 | A left join has at least as many rows as its left table. |
| `Joins.InnerDropsUnmatched` | src/adaptar_dados_reais.py:177-181 | The inner join's rows plus the unmatched left rows are the left join's rows. |
| `Joins.JoinRowsUnique` | src/preprocessamento.py:298-302 | When every key matches at most one right row, a left join has exactly one row per left row, in order. |
| `Joins.BlockRow` | src/preprocessamento.py:298-302 | With unique keys, a left row is extended by its matching right row if there is one, and by NaN otherwise. |
| `Consolidation.FillPayments` | src/preprocessamento.py:305-307 | Only the three payment columns change; their NaN cells get 0, `não_beneficiário` and `não_beneficiário`. |
| `Consolidation.Consolidate` | src/preprocessamento.py:285-310 | The merge succeeds exactly when the payment table has the four columns, the registry has `nis` and no name clashes. The result has the registry's columns plus three, at least as many rows, and no NaN in the payment columns. |
| `Consolidation.JoinedHouseholds` | src/preprocessamento.py:298-302 | With unique NIS in the payments, each registry row is kept once, with the payment of its NIS or NaN. |
| `Consolidation.ConsolidateHouseholds` | src/preprocessamento.py:298-307 | With unique NIS in the payments, each registry row is kept once, with its own payment or the documented defaults. |
| `Training.Prepare` | src/preprocessamento.py:313-340 | X has exactly the 14 feature columns, plus the payment flag exactly when the table has it, with the input's cells and row count. y maps Baixa, Média, Alta and Muito Alta to 0–3 and anything else to NaN. A missing column is an error. |
| `Training.FeatureColumnsDistinct` | src/preprocessamento.py:324-334 | The feature list never repeats a column. |
| `Training.PreparedFromDerived` | src/preprocessamento.py:272-340 | On a derived table, each target is the rank of the tier of that row's score, or NaN when the score is NaN. |
| `Levels.TargetOfLabel` | src/preprocessamento.py:339-340 | The target map sends each label to its rank, and the rank names the label back. |
| `Levels.TargetOfTier` | src/preprocessamento.py:272-340 | Binning a score and then mapping the label gives the tier's rank. |
| `Levels.LevelName` | src/meta_classificador_llm.py:171-175 | 0–3 name the four labels, and every other class is `Desconhecido`. |
| `Levels.LevelNameOfRank` | src/meta_classificador_llm.py:199-201 | A tier's rank names the tier, and the name is `Desconhecido` exactly outside 0..3. |
| `GovMapper.ClassifyMarks` | src/mapeador_governo.py:41-50 | The kind is family when `cd_ibge` or `cod_familiar_fam` is present. Failing that it is person on `cod_familiar_pes` or `nom_pessoa`, then payments on `uf` with `valor_parcela`, else unknown. Each case holds in both directions, in any letter case. |
| `GovMapper.ClassifyIgnoresCase` | src/mapeador_governo.py:41 | Lower-casing the header first does not change the kind. |
| `GovMapper.LowerIdempotent` | src/mapeador_governo.py:41 | Lower-casing twice is lower-casing once. |
| `GovMapper.Detect` | src/mapeador_governo.py:27-64 | Detection fails exactly when no configuration reads. Otherwise it returns the first configuration in the fixed order that reads, with that header's kind, whatever the kind is. |
| `GovMapper.Material` | src/mapeador_governo.py:102-112 | Code 1 gives 2; codes 5–8 give 0; every other code, and NaN, gives 1. |
| `GovMapper.Persons` | src/mapeador_governo.py:81 | A missing size is 1; a present non-negative one is truncated to an integer. |
| `GovMapper.PerCapita` | src/mapeador_governo.py:80-84 | Per-capita times the size (with 0 read as 1) is the income (with NaN read as 0), so it is always finite. |
| `GovMapper.Crowded` | src/mapeador_governo.py:115-118 | Overcrowded means more than 2 people per room, where missing rooms count as 4 and zero rooms as 1. |
| `GovMapper.HouseholdOf` | src/mapeador_governo.py:77-126 | Water is set exactly for code 1, sewage for codes 1 or 2, and energy and garbage for code 1. A missing `marc_pbf` is 0; material, size and crowding are as above. |
| `GovMapper.MapFamily` | src/mapeador_governo.py:67-139 | Fails exactly when a source column is missing or not numeric (a column of digit texts counts as not numeric, see Left out). Otherwise it emits one row per input row, in the 16 fixed columns. |
| `GovMapper.FamilyReadBack` | src/mapeador_governo.py:74-139 | Reading the mapped table by column name gives back the household's fields. |
| `GovMapper.FamilyRowFields` | src/mapeador_governo.py:92-134 | Every mapped row has age 35, sex F, schooling 2, work 0 and no disability. Water is 1 exactly for code 1, sewage exactly for codes 1 or 2, and the dwelling type is the wall material's type. |
| `GovMapper.Responsible` | src/mapeador_governo.py:150-154 | Keeps exactly the rows whose kinship code is 1, but only when that column exists; otherwise keeps everything. |
| `GovMapper.SexCell` | src/mapeador_governo.py:171-172 | Code 2 is F; everything else, NaN included, is M. |
| `GovMapper.WorkCell` | src/mapeador_governo.py:175-179 | Code 1 is 2; everything else is 0. |
| `GovMapper.MapPerson` | src/mapeador_governo.py:156-168 | A target column exists exactly when its source column does. There is one row per responsible person, or none when no source column exists. |
| `GovMapper.PersonReadBack` | src/mapeador_governo.py:156-179 | Each copied cell is the responsible person's source cell, recoded for sex and work. |
| `GovMapper.MapBolsa` | src/mapeador_governo.py:191-204 | With a `VALOR PARCELA` column, one row per payment, flagged 1. Without it, an empty table holding only the flag column. |
| `GovMapper.DetectedPaymentsLost` | src/mapeador_governo.py:191-202 | A one-row file classified as payments, with header `VALOR_PARCELA`, maps to no rows. |
| `GovMapper.PaymentHeaderUnknown` | src/mapeador_governo.py:47 | A header naming `VALOR PARCELA` (with a space) is not classified as payments. |
| `GovMapper.MapBolsaFixed` | src/mapeador_governo.py:191-202 | When the header mentions `valor_parcela` in any case, there is one flagged row per payment. |
| `GovMapper.MapBolsaFixedConservative` | src/mapeador_governo.py:191-202 | On headers without `valor_parcela`, the corrected mapper agrees with the original. |
| `GovMapper.DetectedPaymentsKept` | src/mapeador_governo.py:185-204 | Every file classified as payments keeps all its rows, each flagged 1. |
| `GovMapper.MapByKind` | src/mapeador_governo.py:236-245 | Only a family file can fail. A person file goes through the person mapper and a payment file through the payment mapper as written; an unknown file comes back as it was read. |
| `GovMapper.LoadAndMap` | src/mapeador_governo.py:207-247 | Fails only when detection fails or the family mapper fails; the full read after detection cannot fail in the model (see Left out). An unknown kind returns the loaded table itself, and a family file gives the 16 columns, one row per loaded row. A payment file keeps its rows only when its header holds `VALOR PARCELA`; otherwise the result is the empty table holding only the flag column. |
| `GovMapper.LoadMapped` | src/mapeador_governo.py:236-247 | The mapped table is returned with the detection, and the call fails exactly when the mapper does. |
| `GovMapper.LoadAndMapFixed` | src/mapeador_governo.py:191-247 | With the corrected payment mapper, every file detected as payments keeps one row per loaded row, each flagged 1. |
| `GovMapper.FixedLoaderElsewhere` | src/mapeador_governo.py:207-247 | The correction changes nothing for files that are not detected as payments. |
| `GovMapper.MergeFamilyPerson` | src/mapeador_governo.py:250-271 | When the person table has no `cod_familia`, the family table comes back unchanged. Otherwise it is a left join on `cod_municipio` = `cod_familia` that keeps every family row, its columns first. |
| `RealData.SexOf` | src/adaptar_dados_reais.py:91-93 | Code 1 is M, code 2 is F, and anything else is NaN, each in both directions. |
| `RealData.ServedBy` | src/adaptar_dados_reais.py:95-103 | Water and sewage are 1 exactly for code 1 and 0 otherwise. |
| `RealData.DisabilityOf` | src/adaptar_dados_reais.py:105-108 | Disability is 0 exactly for code 1; NaN and every other code give 1. |
| `RealData.WorkOf` | src/adaptar_dados_reais.py:110-114 | Work is 1 exactly for code 1 and 0 otherwise. |
| `RealData.SchoolingOf` | src/adaptar_dados_reais.py:116-128 | Schooling follows the eight-code table, is 0 for unknown codes, stays in 0..5, and is 5 exactly for code 6. |
| `RealData.SchoolingMapped` | src/adaptar_dados_reais.py:118-128 | The lookup is defined exactly on the eight codes and returns each code's entry. |
| `RealData.Recoded` | src/adaptar_dados_reais.py:140-144 | The four recoded columns hold each row's recoded sex, disability, work and schooling. No other column changes. |
| `RealData.Aggregate` | src/adaptar_dados_reais.py:130-162 | Fails exactly when a used column is missing. Otherwise it has one row per reference person (kinship 1, no de-duplication), with the six columns recoded. |
| `RealData.Joined` | src/adaptar_dados_reais.py:173-181 | The join's rows are the families that have a reference person, repeated once per reference person. Unmatched families are exactly those the left join would add. |
| `RealData.DwellingCell` | src/adaptar_dados_reais.py:188 | A missing code is 1; a present one is truncated toward zero. |
| `RealData.FamilyFields` | src/adaptar_dados_reais.py:185-189 | Fails exactly when a family code column is missing, or the dwelling code is not numeric (digit texts included, see Left out). Otherwise it writes water, sewage, dwelling and payment fields. |
| `RealData.FamilyReads` | src/adaptar_dados_reais.py:186-189 | Water, sewage and dwelling type are recodings of the row's own raw codes; the payment flag is `marc_pbf` copied. |
| `RealData.Renamed` | src/adaptar_dados_reais.py:192-196 | The three renames move income, size and municipality under their new names, keeping every other column. They succeed whenever no new name is already taken. |
| `RealData.ThreeRenamesReads` | src/adaptar_dados_reais.py:192-196 | After the renames, each new name reads the raw column it came from, and exists exactly when its source or target did. |
| `RealData.Finished` | src/adaptar_dados_reais.py:199-222 | Keeps the final columns that exist, in the listed order. Income NaN becomes 0, age NaN 0 and size NaN 1, age and size then truncated. Fails exactly when one of these three is missing, or age or size is not numeric (digit texts included, see Left out). |
| `RealData.Filled` | src/adaptar_dados_reais.py:220-222 | Only income, age and size change, each by its own default. |
| `RealData.FinalKept` | src/adaptar_dados_reais.py:215-217 | A final column is kept exactly when the joined table has it. |
| `RealData.Households` | src/adaptar_dados_reais.py:164-225 | When the join fails, `juntar_dados` fails with the same error. When it succeeds, the output has one row per joined row, only final columns, and each row's water, sewage, dwelling, payment, income, age and size derived from that joined row. |
| `RealData.FamilyThroughFamily` | src/adaptar_dados_reais.py:185-222 | In the output, water, sewage and dwelling are recodings of the joined row's raw codes, and the payment flag is its `marc_pbf`. |
| `RealData.FamilyThroughRenamed` | src/adaptar_dados_reais.py:192-222 | In the output, income, age and size are the filled values of the joined row's raw columns. |
| `RealData.FamilyThroughPerson` | src/adaptar_dados_reais.py:199-222 | The person columns other than age reach the output unchanged. |
| `RealFeatures.ForcePerCapita` | src/adaptar_dados_reais.py:234 | Always writes per-capita income, even over an existing column. Fails exactly when income or size is missing or not numeric. |
| `RealFeatures.ForceFlag` | src/adaptar_dados_reais.py:236-259 | Always writes the flag from its source column. Fails exactly when that column is missing or not numeric. |
| `RealFeatures.ForceInfra` | src/adaptar_dados_reais.py:241-244 | Always writes the bitwise and of water and sewage. Fails unless both are integer columns. |
| `RealFeatures.ForceScoreStep` | src/adaptar_dados_reais.py:261-284 | Always rewrites the normalised income and the score with the same weights as the guarded version. |
| `RealFeatures.ForceTier` | src/adaptar_dados_reais.py:286-291 | Always writes the tier of each row's score. |
| `RealFeatures.ForceAgrees` | src/adaptar_dados_reais.py:234-291 | On a table that lacks a step's output, the unguarded step and the guarded one from the derivation module give the same result. |
| `RealFeatures.ScoreAgrees` | src/adaptar_dados_reais.py:261-284 | Without an existing score, the unguarded score step equals the guarded one. |
| `RealFeatures.RunForced` | src/adaptar_dados_reais.py:231-291 | A run adds exactly its steps' columns and keeps everything else. Each step not overwritten later holds its defining equation. |
| `RealFeatures.FeasibleRuns` | src/adaptar_dados_reais.py:231-291 | A run whose inputs are present with the right types succeeds. |
| `RealFeatures.RunNeeds` | src/adaptar_dados_reais.py:231-291 | If a run succeeds, it had every input it reads, present with the right type. |
| `RealFeatures.GenerateFeatures` | src/adaptar_dados_reais.py:227-294 | The result has every derived column defined by its step, and the input's other cells. |
| `RealFeatures.GenerateFeaturesOk` | src/adaptar_dados_reais.py:227-294 | The unguarded derivation succeeds exactly when the adapter's inputs are present and numeric. |
| `RealFeatures.AdapterIsPipeline` | src/adaptar_dados_reais.py:231-291 | The adapter's steps are the guarded pipeline's steps without the payment flag. |
| `GovConverter.Strip` | src/conversor_dados_governo.py:56 | The result has no double quote and is no longer than the input. |
| `GovConverter.StripAppend` | src/conversor_dados_governo.py:56 | Stripping works character by character, so every other character is kept, in order. |
| `GovConverter.StripIdempotent` | src/conversor_dados_governo.py:56-59 | Stripping twice is stripping once. |
| `GovConverter.StripUnquoted` | src/conversor_dados_governo.py:59 | A text without quotes is unchanged. |
| `GovConverter.CleanCell` | src/conversor_dados_governo.py:168-174 | A text loses its quotes and a NaN becomes the text `nan`. Other values stay as they are, so no cleaned text has a quote. |
| `GovConverter.CleanTableIdempotent` | src/conversor_dados_governo.py:168-174 | Cleaning a cleaned table changes nothing. |
| `GovConverter.CleanedObject` | src/conversor_dados_governo.py:169 | A column is a text column after cleaning exactly when it was one before. |
| `GovConverter.ToNumeric` | src/conversor_dados_governo.py:177 | Numbers pass through. Texts are parsed, and unparseable texts become NaN. |
| `GovConverter.CoerceCleaned` | src/conversor_dados_governo.py:62-65 | Cleaning and then coercing parses the stripped text. |
| `GovConverter.FlagOf` | src/conversor_dados_governo.py:84-95 | A flag is 1 exactly when the coerced code is 1; NaN gives 0. |
| `GovConverter.Divide` | src/conversor_dados_governo.py:74 | Division is finite exactly for a non-zero size. 0/0 is NaN and a positive income over 0 is +inf. |
| `GovConverter.FillQuotient` | src/conversor_dados_governo.py:75 | Only NaN becomes 0, and infinities stay. |
| `GovConverter.SexText` | src/conversor_dados_governo.py:209 | M exactly for the text `1`; everything else is F. |
| `GovConverter.PersonOf` | src/conversor_dados_governo.py:208-212 | Disability is 1 exactly when the coerced code is above 0. Age, schooling and work are the coerced codes when present. |
| `GovConverter.UnmatchedIsPlaceholder` | src/conversor_dados_governo.py:204-212 | A family with no reference person gets age 35, sex F, schooling 1, work 0 and no disability. |
| `GovConverter.ConvertFamilies` | src/conversor_dados_governo.py:52-108 | Fails exactly when a family column is missing. Otherwise it gives one household per row; its municipality and id are the `astype(str)` texts (see `GovConverter.FamilyOnlyIds`). |
| `GovConverter.TextCleaned` | src/conversor_dados_governo.py:56-59 | The municipality and family id are always text without quotes, whatever the column type: NaN reads `nan`, a text loses its quotes, and an integer becomes digits that read back as the integer. |
| `GovConverter.FamilyOnlyIds` | src/conversor_dados_governo.py:55-59 | In every converted household the municipality and the family id are texts without quotes, whatever the type of the column they were read from. A missing value reads `nan`, and a natural number reads back as itself. |
| `GovConverter.DigitsRoundTrip` | src/conversor_dados_governo.py:56-59 | Reading back the decimal digits `str` writes for a natural number gives the number. |
| `GovConverter.FamilyOnlyMeaning` | src/conversor_dados_governo.py:74-108 | Every family-only row has the fixed placeholder person, and its per-capita income is never NaN. For a non-zero size it is income divided by size. |
| `GovConverter.FamilyOnlyCodes` | src/conversor_dados_governo.py:62-101 | Water and sewage are 1 exactly for code 1. Unparseable income, size, dwelling and payment values become 0, 1, 1 and 0. |
| `GovMerge.Partners` | src/conversor_dados_governo.py:193-205 | A family's partners are exactly the reference persons whose id matches, in row order. |
| `GovMerge.PartnerBlock` | src/conversor_dados_governo.py:199-205 | A family gives one joined row per partner, or a single unmatched row when it has none. |
| `GovMerge.JoinPairsSound` | src/conversor_dados_governo.py:199-205 | Every joined pair is a family with one of its partners, or a family without partners. |
| `GovMerge.JoinPairsOrdered` | src/conversor_dados_governo.py:199-205 | The joined rows follow the family order. |
| `GovMerge.JoinPairsCover` | src/conversor_dados_governo.py:199-205 | Every family appears, so the join has at least as many rows as families. It has exactly as many when no family has two partners. |
| `GovMerge.MergedHouseholds` | src/conversor_dados_governo.py:199-212 | One household per joined pair, built from that family's row and that partner's row. |
| `GovMerge.JoinedPersons` | src/conversor_dados_governo.py:193-212 | A joined row has the placeholder person exactly when no reference person matches its family. Otherwise its person fields come from a matching reference person's row. |
| `GovMerge.CleanupFilters` | src/conversor_dados_governo.py:224-226 | Dropping rows without municipality or per-capita, then keeping municipality > 0, is one filter on both conditions. |
| `GovMerge.ConvertAndMerge` | src/conversor_dados_governo.py:119-226 | Fails exactly when a family or person column is missing; a merge on ids of different types does not fail in the model (see Left out). Otherwise the output is the joined households, in order, that pass the final filter, and all of them pass it. |
| `GovMerge.CleanedCoerced` | src/conversor_dados_governo.py:168-187 | Coercing a cleaned cell is coercing the stripped raw cell. |
| `GovMerge.MergedCodesAgree` | src/conversor_dados_governo.py:177-187 | The merge reads the same coerced codes as the family-only converter. |
| `GovMerge.MergedFamilyAgrees` | src/conversor_dados_governo.py:177-187 | The family fields of a merged row are those of the family-only conversion, except that NaN per-capita is not filled. |
| `GovMerge.NumericKinshipMatchesNobody` | src/conversor_dados_governo.py:168-193 | When the kinship column was read as numbers, every family is joined once with the placeholder person. |
| `GovMerge.MergedKept` | src/conversor_dados_governo.py:224-226 | A merged row survives the filter exactly when its family's municipality code is positive and its per-capita income is not 0/0. |
| `GovMerge.MergedFamiliesSurvive` | src/conversor_dados_governo.py:199-226 | When both tables have the columns the converter reads, the model's merge succeeds (pandas may raise on ids of different types, see Left out), and every family that passes the filter appears in the output. |
| `GovMerge.MergedRowsKept` | src/conversor_dados_governo.py:199-226 | When both tables have the columns the converter reads, the model's merge succeeds (pandas may raise on ids of different types, see Left out), and every output row is a joined row whose family passes the filter. |
| `GovMerge.SexCodesAsText` | src/conversor_dados_governo.py:168-209 | A quoted text `"1"` becomes M, while an integer 1 becomes F. |
| `Report.PredictionsAppend` | src/meta_classificador_llm.py:391-400 | Collecting over two batches concatenates the two collections, in result order. |
| `Report.PredictionsCount` | src/meta_classificador_llm.py:391-409 | A level's count over a batch is the sum of the per-result counts. |
| `Report.PredictionsAbsent` | src/meta_classificador_llm.py:394-400 | Results without the model's key contribute nothing. |
| `Report.LevelsSound` | src/meta_classificador_llm.py:407-411 | Every distribution entry is a predicted level's name, with its count. |
| `Report.LevelsComplete` | src/meta_classificador_llm.py:407-411 | A level is listed exactly when it was predicted. |
| `Report.DistributionTotal` | src/meta_classificador_llm.py:407-411 | The listed counts add up to the predictions in 0..3; other classes are not counted. |
| `Report.AnalysedMeaning` | src/meta_classificador_llm.py:412-413 | The language-model count is the number of results with an analysis. It equals the total exactly when every result has one. |
| `Report.Consolidate` | src/meta_classificador_llm.py:384-414 | The report is empty exactly for an empty batch. Otherwise the total is the batch size and bounds the language-model count. |
| `Report.ConsolidateMeaning` | src/meta_classificador_llm.py:403-413 | For each model and level, the report lists the level exactly when it was predicted, with its count over the batch. The listed counts sum to the in-range predictions. |

## Left out

- Reading and writing files is not modelled: `read_csv`, `to_csv`, encodings, chunked reading, paths and logging. Detection takes the reader's outcome per configuration as a parameter.
- The synthetic data loaders and random generators of `src/preprocessamento.py` are not modelled. They are random and rely on I/O.
- The FastAPI service, the classifier training and persistence, the language-model client and prompt, the municipality lookup, the system validator and the command-line scripts are not modelled. They are plumbing or third-party calls.
- Floating point is not modelled: incomes, scores and z-scores are `real`. There is no IEEE rounding at the bin edges, and no `-0.0`.
- `Normalisation.ZScores` takes the square root as a parameter, constrained only by `Stats.IsSqrt`.
- `Features.AddPerCapita` requires finite incomes, `Features.FiniteIncomes`: no positive or negative income over a zero size. pandas would give ±inf there, and `real` has no infinities; 0/0 is modelled as NaN. `Derivation.Derive`, `RealFeatures.ForcePerCapita`, `RealFeatures.GenerateFeatures` and `Training.PreparedFromDerived` have the same requirement.
- `GovConverter.ToNumeric` takes `pd.to_numeric` on text as the parameter `parse`; it only requires that the text `nan` parses to NaN.
- `GovConverter.CleanCell` leaves a number as a number. The merging converter applies `astype(str)` only to object columns, so this differs from pandas only for a number inside a column that also holds text.
- `GovConverter.ConvertFamilies` reads a numeric code cell as its number. The program first turns it into text with `astype(str)` and parses that back; the model takes the round trip through `to_numeric` to give the number back. The text of a float (`repr`) is a parameter of `GovConverter.CellText`.
- `RealData.Renamed` fails with `DuplicateColumn` when a new name already exists in the joined table. Frames cannot hold duplicate labels, so the model fails where pandas' `rename` succeeds with two columns of the same name.
- `Joins.Merge` fails with `DuplicateColumn` on any clash of output names. pandas raises `MergeError` only when the suffixes create a duplicate; a left name that clashes with a suffixed right name (left `k, a, a_y`, right `k, a`) gives duplicate labels in pandas, which frames cannot hold. `Consolidation.Consolidate` inherits this through `Consolidation.Clash`.
- `GovMapper.Lower` only lowercases ASCII letters; all the names the detector looks for are ASCII.
- `Frames.Select` reports one missing column, where pandas lists them all in its `KeyError`.
- `Joins.Merge` matches a number against a text as unequal. pandas raises on merge keys of incompatible types.
- Integer and float column types are not distinguished beyond what the operations test (`IntColumn` for `&`, `NumericColumn` for `select_dtypes`).
- `GovMapper.LoadAndMap` takes the full read as `load: Config -> Frame`, which cannot fail. Detection reads only the first rows (src/mapeador_governo.py:38), so the full `read_csv` at src/mapeador_governo.py:226-231 can still raise on a later row (a decode or tokenizing error); the model promises nothing about that case, and neither do `GovMapper.LoadMapped` and `GovMapper.LoadAndMapFixed`.
- `GovMerge.ConvertAndMerge` matches family and person ids of different types (a number against a text) as unequal, so such families get the placeholder person. pandas' `merge` at src/conversor_dados_governo.py:199-205 raises `ValueError` there when both sides are non-empty. `GovMerge.MergedFamiliesSurvive` and `GovMerge.MergedRowsKept` state that the merge succeeds under the model's matching; they do not hold for the program on such input.
- `GovMapper.MapFamily`, `RealData.FamilyFields` and `RealData.Finished` reject a text cell in a column they cast with `.astype(int)` (src/mapeador_governo.py:81, 88; src/adaptar_dados_reais.py:188, 221-222). pandas parses an object column of integer texts such as `'30'` there, so the model fails on tables whose code, age or size column was read as text but holds only digits.
- `Report.Consolidate` omits the report's timestamp, which comes from the clock.

## Findings

| source | as written | input that shows it | evidently intended | confidence | as-written member | corrected member |
|---|---|---|---|---|---|---|
| src/mapeador_governo.py:191-202 | The payment mapper copies the column `VALOR PARCELA`, with a space. But a file is only classified as payments when its header has `valor_parcela`, with an underscore, in some letter case (line 47). So a detected payment file keeps its payments only if its header also names `VALOR PARCELA`. Otherwise `df_mapped` stays an empty frame, and adding the flag column to it gives zero rows. A header with `VALOR PARCELA` alone is not classified as payments at all (`GovMapper.PaymentHeaderUnknown`). The loader as written, `GovMapper.LoadAndMap`, passes this on. | Header `["UF", "VALOR_PARCELA"]` with one payment row: classified as payments, mapped to no rows. | Copy the `valor_parcela` column (any letter case) and flag every payment row. | not executed | `GovMapper.DetectedPaymentsLost` | `GovMapper.LoadAndMapFixed` |
