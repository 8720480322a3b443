TestResult.DisplayName,TestResult.Outcome,TestResult.Duration,TestResult.ResourceCount,RandomSeed
Dynamo.RowValuesAt (correctness),Passed,00:00:00.4046633,1157094,2
Dynamo.RowValuesAt (well-formedness),Passed,00:00:00.1059048,119975,2
