TestResult.DisplayName,TestResult.Outcome,TestResult.Duration,TestResult.ResourceCount,RandomSeed
Dynamo.RowValuesAt (correctness),Passed,00:00:00.5804426,1809412,1
Dynamo.RowValuesAt (well-formedness),Passed,00:00:00.1172621,120001,1
